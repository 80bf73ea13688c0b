# TecnicoFS in Dafny

TecnicoFS is a small in-memory file system in C. This project models its three cores and proves what they do over
all inputs, all runs and, where threads are involved, all interleavings.

**The block store of part one** (`P1/fs/state.c`, `P1/fs/operations.c`). A file has ten direct pointers and one index
block of 256 pointers that lives in the same byte array as the data. `StoreModel` states every function as a
transition on the static tables, `BlockStoreImpl.BlockStore` is the imperative form over arrays and is proved to
compute exactly those transitions. On them:
- `StoreOwnership` to `StoreRuns`: a ledger gives each TAKEN block its one pointer slot. It stays exact through every
  call of every sequential run, including calls that fail because blocks run out.
- `StoreSplice`, `StoreRead`: `tfs_write` is a splice into one flat byte sequence and `tfs_read` a slice of it, with the
  exact conditions under which the code achieves that; `StoreOutcome`: how reads and writes end otherwise; `StoreLimit`:
  what the code does past the last block.
- `FlatStore`, `StoreRefinement`: whole runs answer as a store of flat files does, down to the number of free blocks.
  `StoreAllocation` shows that blocks go lowest first, which makes that a statement about the flat store alone.
- `StoreHistory`, `StoreAppend`, `StoreSize`, `StoreCopy`: appends from the open on, block accounting, rounds, when `i_size`
  is the length, and the copy to an external file.
- `StoreExamples`, `StoreFullRun`, `StoreLimitRun`: runs from `tfs_init` in which each condition fails.
- `ConcurrentUpdate`, `ConcurrentShape`, `ConcurrentReturn`, `ConcurrentProgress`, `ConcurrentSolo`, `LockOrder`: any number of
  threads inside `inode_update`, what such a phase leaves behind and how sequential calls go on from there, that all threads
  come through, the sequential function as the steps of a lone thread, and the lock order and mutual exclusion of all calls.

**The file system of part two under one lock** (`P2/fs/state.c`, `P2/fs/operations.c`). `TfsModel` and `TfsImpl.Tfs` as
above; `AbstractFs` is the promise to callers (name to bytes, handle to name and offset). `TfsInvariant`,
`TfsRefinement`, `TfsRuns` prove the refinement over whole runs, `TfsTables` what the tables keep over all runs, `TfsNames`
when names stay unique, `TfsExamples` runs where the conditions fail, `Shutdown` the protocol of
`tfs_destroy_after_all_closed`, `tfs_open` and `tfs_close` in all interleavings.

**The request stream of part two** (`P2/client/tecnicofs_client_api.c`, `P2/fs/tfs_server.c`). `Framing` relates the
client's zero-padded frames to the server's parser. `MessagesImpl` has the client's buffers, the producer loop with the
sessions that a mount claims, and what sessions see of each other.

`Memory`, `Directory`, `Numbering`, `Options` and `ArrayOps` are shared: C integers and copies, the directory block,
numbers given out lowest first and slots counted, missing values, and the array loops.

Accesses outside the program's arrays are outcomes of the model (`Fault`, `Wild`), not preconditions. The arithmetic of
`size_t` wraps at 2^64, and `of_boffset` is what is left of the size after a cast to `int`.

Where the code and what its comments or names promise part, the model follows the code:
- `i_size` grows by every byte written, also on an overwrite (P1/fs/operations.c:152): `StoreSize.SizeRightIff` and
  `StoreSize.SizeIsLengthIff` say when it is the length, `StoreExamples.OverwriteRun` shows when not.
- The length of a read ignores `of_boffset` (P1/fs/operations.c:176), and each round copies all remaining bytes
  (P1/fs/operations.c:207): `StoreRead.ReadLengthExact`, `StoreRead.ReadRefinesIff`, `StoreOutcome.ReadReturns`,
  `StoreExamples.ReadAtEndRun`, `StoreExamples.ReadPastBlockRun`.
- There is no check at 266 blocks (P1/fs/state.c:311-321): `StoreLimit.PastTheLastBlock`, `StoreLimit.WritePastLimit`,
  `StoreLimitRun.LimitByteRenames`.
- A failed allocation is not noticed where it happens (P1/fs/state.c:299, 307, 315): `StoreSplice.WriteSucceedsIff`,
  `StoreOutcome.WriteRunsOut`, `StoreFullRun.BlocksRunOut`.
- `inode_data_free` skips files of size 0 and unlocks a lock it has not taken (P1/fs/state.c:197-235):
  `StoreHistory.TruncateExactIff`, `StoreExamples.TruncateLosesBlock`, `LockOrder.DataFreeDisciplinedIff`.
- The comment on `pointer_block_alloc` speaks of zeros; the code stores -1 (P1/fs/state.c:437-454).
- The CLOSING test is outside the lock and the wait is an `if` (P2/fs/operations.c:134, 50):
  `Shutdown.DestroyedOpenIff`, `Shutdown.PendingOpenDestroysIff`, `Shutdown.LateOpenerRun`, `Shutdown.SpuriousRun`.
- Truncating under another handle leaves its offset past the end (P2/fs/operations.c:93-99, 224):
  `TfsRefinement.TruncateKeepsHandlesIff`, `TfsRefinement.ReadLengthIff`, `TfsExamples.TruncateUnderHandle`.
- The path is not checked again before a file is created (P2/fs/operations.c:107-115): `TfsNames.OpenKeepsNamesIff`,
  `TfsExamples.MissingSlashBindsTwice`.
- The open frame puts the flags over the name, and the read frame has no length: `Framing.ArrivesIntactIff`.
- A mount claims every free session and writes into its buffer, and `session_count` never rises
  (P2/fs/tfs_server.c:196-211): `MessagesImpl.SessionIsOwnIff`, `MessagesImpl.MountOverwrites`, `MessagesImpl.NeverFull`.

`dafny verify dfyconfig.toml` checks the whole project.

## Model

| member | source | states |
|---|---|---|
| Directory.StoredNameMatches | P1/fs/state.c:372-373 | A name stored by strncpy is found by strncmp under its clipped form and under no other: names below 40 characters are faithful, longer ones are never found again. |
| Directory.FindInDirectory | P2/fs/state.c:243-249 | The search over the raw bytes of a directory block is lookup in its list of bindings, for every name. |
| Directory.AddBinding | P1/fs/state.c:367-377 | Filling the first empty entry appends exactly one binding and keeps all others. |
| Directory.HoldsUnique | P2/fs/state.c:241-247 | The bytes of a directory block determine its bindings. |
| Directory.BindThenFind | P2/fs/state.c:187-219 | The directory is a map: the new name leads to its inumber and no other lookup changes. |
| Directory.FoundAgainIffShort | P2/fs/state.c:212-213 | A fresh binding is found again if and only if its name has fewer than 40 characters. |
| StoreOwnership.AllocCounts | P1/fs/state.c:419-436 | data_block_alloc fails exactly when no block is free and otherwise uses up one. |
| StoreOwnership.AssignDirect | P1/fs/state.c:295-302 | Filling the first missing direct pointer keeps the block ledger exact: one new owner, all data and other slots unchanged. |
| StoreOwnership.AssignIndexBlock | P1/fs/state.c:306-308 | The same for a new index block, whose 256 pointers all read as missing. |
| StoreOwnership.AssignPointer | P1/fs/state.c:311-318 | The same for a pointer inside the index block, which lies among the file bytes. |
| StoreUpdate.InodeUpdateEffect | P1/fs/state.c:278-334 | inode_update below 266 blocks: with enough free blocks it returns the address of the mapped byte, maps exactly the prefix up to that block and uses exactly the missing blocks; with too few it returns NULL, or an address outside fs_data when of_offset is not 0 or there is no index block. The ledger stays exact either way. |
| StoreWrite.PutBytesKeepsInv | P1/fs/operations.c:129-154 | A copy into a mapped block changes no pointer of any live inode and no other block. |
| StoreWrite.WriteRound | P1/fs/operations.c:117-156 | One round maps the block, puts the chunk there and keeps every other mapped byte of every file and the root directory. |
| StoreSplice.WriteLoopSplices | P1/fs/operations.c:101-158 | With the needed blocks free and room below 266 blocks, exactly bytes [pos, pos + n) become the buffer, all other mapped bytes of all files and the root directory stay, the handle and i_size advance by n, the free count falls by exactly the blocks needed, and the result is n. |
| StoreSplice.WriteLoopSound | P1/fs/operations.c:101-158 | Also when blocks run out midway, the ledger stays exact, no other file or handle changes, and the byte count is never returned. |
| StoreSplice.WriteSucceedsIff | P1/fs/operations.c:117-157 | Below 266 blocks a write returns its byte count if and only if enough blocks are free. |
| StoreOutcome.WriteRunsOut | P1/fs/operations.c:117-157 | A write below 266 blocks with too few free ones is a completed write of exactly the bytes that fit, then one more inode_update, and then -1, or an access outside the arrays if and only if its position was inside its first block or no index block could be had. |
| StoreOutcome.NoPositionEnds | P1/fs/operations.c:124-128 | A position that is NULL ends the write and the read with -1 after what inode_update did. |
| StoreSplice.WriteRefinesIff | P1/fs/operations.c:101-158 | A write refines the flat splice if and only if it ends below 266 blocks, which is all a file can hold, and enough blocks are free. StoreLimit says what it does otherwise. |
| StoreRead.MappedUpdate | P1/fs/state.c:295-333 | On a mapped position inode_update changes nothing and finds the byte through the pointer. |
| StoreLimit.PastTheLastBlock | P1/fs/state.c:304-325 | Past block 266 inode_update maps all 266 blocks as far as free ones last, changes no mapped byte, and then takes a block number from the bytes behind the index block, for any file. |
| StoreLimit.WritePastLimit | P1/fs/operations.c:117-157 | A write of any length there puts its first chunk into the block of that number, whoever owns it, changes no other block and goes on past the limit with the rest, the byte count at the end; with no such block it fails or leaves the arrays. |
| StoreRead.ReadLengthExact | P1/fs/operations.c:176-183 | At every position, past i_size too, the code's length is what is left of the file if and only if nothing is asked for, or the handle is in block 0 or no more than the rest is asked for, or past i_size the size equals of_offset. |
| StoreOutcome.ReadReturns | P1/fs/operations.c:176-225 | Every read that ends returns min(len, i_size - of_offset): within i_size that is the rest of the file and all blocks before the position's, past it the wrapped difference, cut to len. |
| StoreOutcome.ReadReturnsBytes | P1/fs/operations.c:160-226 | If that many bytes are mapped, also past i_size, the read puts exactly them into the buffer, moves only its handle and returns their number if and only if no copy passes fs_data; otherwise it faults. |
| StoreOutcome.ReadCompletes | P1/fs/operations.c:185-225 | A read that has to map blocks ends with its count when enough are free and the last one it may get leaves room for its copies. |
| StoreRead.ReadLoopSlices | P1/fs/operations.c:185-225 | A read of mapped bytes returns the flat slice, although every round copies too much, and moves the handle; if a copy would pass fs_data it faults. |
| StoreRead.ReadRefinesIff | P1/fs/operations.c:160-226 | From every position tfs_read returns the documented bytes and changes only its handle if and only if the length comes out right, the bytes are mapped and no copy passes the end of fs_data. |
| StoreRead.UnmappedRead | P1/fs/operations.c:185-225 | A read that reaches an unmapped byte fails or takes blocks. |
| StoreRead.ReadLoopSound | P1/fs/operations.c:185-225 | Any read below 266 blocks keeps the ledger exact and every mapped byte and size, even where it maps new blocks. |
| StoreOpen.InodeDataFreeEffect | P1/fs/state.c:196-237 | Truncation gives back exactly the blocks of the file, through both pointer levels, and nothing else. |
| StoreOutcome.DataFreeSucceedsIff | P1/fs/state.c:196-237 | In any state, inode_data_free succeeds if and only if the file has size 0 or every pointer set on both levels, and the index block, is a block. |
| StoreOpen.TruncateReleases | P1/fs/operations.c:57-60 | TFS_O_TRUNC empties the file, raises the free count by what the file used and leaves every other file alone. |
| StoreOpen.CreateInode | P1/fs/state.c:104-163 | A new file takes the first free inode, has no blocks, and changes no other file. |
| StoreOutcome.DirectoryNeedsBlock | P1/fs/state.c:120-132 | A directory that gets no block is not created: -1, its inode is free again and no block, byte or live inode differs. |
| StoreOpen.BindInRoot | P1/fs/state.c:344-380 | A new directory entry changes no file's bytes and fails exactly when all 23 entries are used. |
| StoreOpen.DeleteNew | P1/fs/operations.c:80-83 | The rollback of a failed create gives the inode back and keeps the ledger and all files. |
| StoreRuns.CreateKeeps | P1/fs/operations.c:72-84 | A create fails only for lack of an inode or an entry and then rolls back; otherwise it adds one empty file and one binding. |
| StoreRuns.LookupFindsLive | P1/fs/operations.c:29-38 | tfs_lookup finds the first binding of the name, and what it finds is a live file. |
| StoreOutcome.BadPathsRefused | P1/fs/operations.c:24-51 | A path that is too short or has no leading slash is not found and not opened, an unbound one without TFS_O_CREAT is not opened, and nothing changes. |
| StoreOutcome.BadHandlesRefused | P1/fs/operations.c:99-172 | A number that is no handle, or whose inode number is none, gets -1 from write and read, and one that is not open from close; nothing changes. |
| StoreRuns.OpenKeeps | P1/fs/operations.c:40-96 | Every open, with any path and flags, keeps the invariant of runs. |
| StoreRuns.WriteKeeps | P1/fs/operations.c:101-158 | Every write through an open handle within 266 blocks keeps the invariant of runs, completed or not. |
| StoreRuns.ReadKeeps | P1/fs/operations.c:160-226 | So does every read that does not start past i_size. |
| StoreRuns.CloseKeeps | P1/fs/state.c:531-542 | So does every close, of any number. |
| StoreRuns.InitEstablishes | P1/fs/operations.c:8-18 | tfs_init succeeds whatever the tables held and leaves one TAKEN block, the empty root directory, and no file or handle. |
| StoreRuns.LedgerMeansNoAlias | P1/fs/state.c:278-334 | An exact ledger means no block is reached by two pointer slots and no TAKEN block by none. |
| StoreRuns.RunsKeepOwnership | P1/fs/operations.c:8-226 | Over every guarded run from tfs_init: no aliasing, no leak, and free plus owned blocks are 1024. |
| StoreRefinement.WriteAgrees | P1/fs/operations.c:101-158 | A write does to files, positions and free blocks what the flat store's write does, with the same result. |
| StoreRefinement.ReadAgrees | P1/fs/operations.c:160-226 | A read puts the bytes last written at its position into the caller's buffer, as the flat store does. |
| StoreRefinement.OpenAgrees | P1/fs/operations.c:40-96 | An open binds, empties, positions and numbers its handle as the flat store does, and fails when that does. |
| StoreRefinement.CreateAgrees | P1/fs/operations.c:75-84 | A create takes the lowest free file number, and succeeds if and only if a number and a directory entry are left. |
| StoreRefinement.RunsRefineFlat | P1/fs/operations.c:8-226 | Whole-run refinement: from tfs_init every allowed sequence of calls gives the answers of the flat store, and the FREE blocks are those of its accounts. |
| StoreRefinement.FlatRunsRefine | P1/fs/operations.c:8-226 | The same under conditions on the flat store alone: reads must fit below the most blocks ever in use. |
| StoreAllocation.AllocLowestFirst | P1/fs/state.c:419-436 | An allocation takes the lowest FREE block, so a store that never used more than m blocks never touched one from m on. |
| StoreSize.SizeRightIff | P1/fs/operations.c:143-152 | After a completed write of one byte or more, i_size is the larger of old size and end of the write if and only if the write started at the old size. |
| StoreSize.SizeIsLengthIff | P1/fs/operations.c:117-156 | Over whole runs, for a file no write to which starts past i_size: exactly the bytes below i_size have been written if and only if every write since the file was last empty started at i_size. |
| StoreSize.AppendHidesOverwrite | P1/fs/operations.c:152 | The last written byte alone does not tell: an overwrite followed by an append ends at i_size with a hole. |
| StoreExamples.OverwriteRun | P1/fs/operations.c:152 | From tfs_init, one byte written twice gives i_size 2. |
| StoreExamples.ReadAtEndRun | P1/fs/operations.c:176-183 | From tfs_init, a read at the end of a file of 1025 bytes returns one byte. |
| StoreExamples.ReadPastBlockRun | P1/fs/operations.c:176-183 | From tfs_init, a file of 2000 bytes read by 1500 and then by 4096 returns 1524 the second time. |
| StoreExamples.TruncateLosesBlock | P1/fs/state.c:196-254 | From tfs_init, truncating under a handle, reading a byte through it and truncating again leaves a TAKEN block that no pointer leads to. |
| StoreFullRun.BlocksRunOut | P1/fs/state.c:295-318 | From tfs_init, three files of 266 blocks leave 222 free, and a fourth write of that length returns -1. |
| StoreLimitRun.LimitByteRenames | P1/fs/state.c:304-325 | From tfs_init, "/a" is filled with zeros; the byte "b" written at its end goes into the root directory, the write returns 1, and the file is found as "/b" only. |
| StoreAppend.OpenStandsAtEnd | P1/fs/operations.c:56-91 | A new file, a truncated one, and one opened with TFS_O_APPEND whose size is covered by blocks have the handle at the end, with the old content or none. |
| StoreOutcome.StartsThereIff | P1/fs/state.c:496-524 | A handle given an offset stands there if and only if that is below 2^31; from there to 2^32 the block is the truncated negative quotient, and below block 0 every write and read leaves the arrays. |
| StoreAppend.OpenThenAppend | P1/fs/operations.c:40-158 | After such an open, any list of buffers that fits leaves the content opened with followed by all of them, with i_size the length and the handle at the end. |
| StoreHistory.AppendHistory | P1/fs/operations.c:117-156 | Any list of buffers written at the end of a file leaves the old content followed by all buffers, with i_size equal to the position, across the boundary from direct to indirect blocks. |
| StoreHistory.WriteCosts | P1/fs/state.c:278-334 | A write lowers the free count by need(k') - need(k), where need(k) counts k data blocks and the index block past ten. |
| StoreHistory.TruncateGains | P1/fs/state.c:196-254 | A truncation raises it by need(k). |
| StoreHistory.TruncateExactIff | P1/fs/state.c:196-254 | Truncation keeps the blocks accounted for if and only if a file of size 0 has none. |
| StoreHistory.CallsPerBlock | P1/fs/operations.c:117-156 | A write of n > 0 bytes calls inode_update (pos + n - 1) / 1024 - pos / 1024 + 1 times. |
| StoreCopy.CopyOutIff | P1/fs/operations.c:228-268 | Copying out a covered file puts exactly its bytes into the destination and leaves no open handle if and only if a handle is free, the destination opens and has room, and no copy passes fs_data. |
| StoreCopy.CopyOutRefused | P1/fs/operations.c:228-240 | A path that is not bound, or no free handle: -1, nothing reaches the destination and nothing changes. |
| StoreCopy.CopyOutFails | P1/fs/operations.c:240-268 | Of a covered file: a fault if a copy passes fs_data; -1, the bytes that fit at the destination and a handle left open if that does not open or has too little room; 0 and all bytes otherwise. |
| StoreCopy.CompleteCopy | P1/fs/operations.c:228-268 | From any state, a copy that returns 0 has put i_size bytes into the destination and left no handle open. |
| ConcurrentUpdate.StepKeeps | P1/fs/state.c:278-334 | Each step of any thread in inode_update keeps every block in at most one slot or one thread's hand. |
| ConcurrentUpdate.InterleavingsAreSafe | P1/fs/state.c:419-436 | For any number of threads and any interleaving no block is handed out twice or stored in two slots, none is lost, and -1 means every block is TAKEN. |
| ConcurrentShape.PhasesCompose | P1/fs/state.c:278-334 | Once all threads are idle again no lock is held, every TAKEN block is in one slot or the root directory's, the pointers of each file are a prefix, and the next phase can start. |
| ConcurrentShape.LeavesMapped | P1/fs/state.c:295-321 | In every interleaving, a thread that leaves the loops finds every block up to its position, of the 266, mapped in its inode, or every block TAKEN. |
| ConcurrentProgress.BlockedIff | P1/fs/state.c:278-334 | In every reachable state a thread is blocked if and only if it has crashed or another thread is inside the section of the very lock it wants next. |
| ConcurrentProgress.ThreadsComeThrough | P1/fs/state.c:278-334 | From every state of every interleaving the threads can be run, in boundedly many steps, until all are idle or one is at the dereference of a missing index block: no deadlock, no endless loop. |
| ConcurrentSolo.SoloUpdate | P1/fs/state.c:278-334 | From every state and open handle, one thread's steps end with all locks free over exactly the tables and pointers the sequential inode_update leaves, or at the dereference of a missing index block, exactly when that leaves none. |
| ConcurrentSolo.SoloCounts | P1/fs/state.c:278-334 | With enough free blocks the thread comes out with the blocks up to its position mapped, no more, and only the missing ones taken; with too few it stops at a missing index block exactly when the direct pointers use up what is free. |
| ConcurrentShape.StoreHasPrefixes | P1/fs/state.c:278-290 | Every state with an exact ledger has such prefixes. |
| ConcurrentReturn.PhaseReturns | P1/fs/state.c:278-334 | From any state with an exact ledger, any interleaving of updates that ends with all threads idle leaves tables with an exact ledger, the same directory and every mapped byte where it was. |
| ConcurrentUpdate.StoreIsStart | P1/fs/state.c:278-290 | Every state with an exact ledger is a start for such concurrent updates. |
| LockOrder.DataFreeDisciplinedIff | P1/fs/state.c:196-237 | inode_data_free releases only what it holds if and only if i_size is not 0. |
| LockOrder.CallDisciplinedIff | P1/fs/operations.c:40-268 | Every call, writes and reads that stop in inode_update and the copy-out included, takes locks in the order of_mutex, i_lock, db_mutex (it_mutex and vs_mutex alone) and returns all of them if and only if it does not run inode_data_free on an empty file. |
| LockOrder.NoDeadlock | P1/fs/operations.c:40-268 | For any threads, calls and schedule: no cycle of waiters, and while work is left some thread can go on. |
| LockOrder.MutualExclusion | P1/fs/operations.c:40-268 | For any threads, calls, matched or not, and schedule: a lock that two threads hold at once is held by both for reading. |
| LockOrder.EnabledIff | P1/fs/operations.c:40-268 | And no more than that: a lock can be taken to read if and only if no other thread has it to write, to write if and only if no other thread has it, and always be released. |
| LockOrder.CallTakes | P1/fs/operations.c:40-268 | How often each call takes each lock, and in which mode. |
| ArrayOps.TakeFirst | P1/fs/state.c:420-435 | The scan takes the first FREE slot, and only that one, or returns -1 with the table unchanged. |
| ArrayOps.SearchDirectory | P1/fs/state.c:405-412 | The loop computes the specified search over the bytes. |
| ArrayOps.ClearDirectory | P1/fs/state.c:144-146 | The loop leaves the specified empty directory. |
| BlockStoreImpl.BlockStore.DataBlockAlloc | P1/fs/state.c:419-436 | In place, the specified allocation. |
| BlockStoreImpl.BlockStore.PointerBlockAlloc | P1/fs/state.c:441-455 | In place, a new block filled with 256 pointers -1. |
| BlockStoreImpl.BlockStore.InodeCreate | P1/fs/state.c:104-163 | In place, the specified new inode, with its rollback. |
| BlockStoreImpl.BlockStore.InodeDataFree | P1/fs/state.c:196-237 | In place, both freeing loops with their early exits. |
| BlockStoreImpl.BlockStore.InodeMetadataReset | P1/fs/state.c:243-254 | In place, the reset inode. |
| BlockStoreImpl.BlockStore.InodeDelete | P1/fs/state.c:171-188 | In place, the specified deletion. |
| BlockStoreImpl.BlockStore.InodeUpdate | P1/fs/state.c:278-334 | In place, both filling loops and the address they lead to. |
| BlockStoreImpl.BlockStore.FindInDir | P1/fs/state.c:388-413 | The specified search. |
| BlockStoreImpl.BlockStore.AddDirEntry | P1/fs/state.c:344-380 | In place, the specified entry. |
| BlockStoreImpl.BlockStore.AddToOpenFileTable | P1/fs/state.c:496-524 | In place, the first free handle with the split position. |
| BlockStoreImpl.BlockStore.RemoveFromOpenFileTable | P1/fs/state.c:531-542 | In place, the handle given back. |
| BlockStoreImpl.BlockStore.TfsInit | P1/fs/operations.c:8-18 | In place, the specified fresh file system. |
| BlockStoreImpl.BlockStore.TfsLookup | P1/fs/operations.c:29-38 | The specified lookup. |
| BlockStoreImpl.BlockStore.TfsOpen | P1/fs/operations.c:40-96 | In place, the specified open with all its error exits. |
| BlockStoreImpl.BlockStore.TfsClose | P1/fs/operations.c:99 | In place, the specified close. |
| BlockStoreImpl.BlockStore.TfsWrite | P1/fs/operations.c:101-158 | The loop over the arrays ends in the state and result of the specified write, and calls inode_update as often as counted. |
| BlockStoreImpl.BlockStore.TfsRead | P1/fs/operations.c:160-226 | The loop over the arrays and the caller's buffer ends in the state, buffer and result of the specified read. |
| BlockStoreImpl.BlockStore.CopyOut | P1/fs/operations.c:228-268 | Open, read, write to the destination and close as specified, with every early return. |
| TfsInvariant.FewTaken | P2/fs/state.c:187-219 | At most 24 inodes and 24 blocks are TAKEN in every state with consistent tables, wherever handles stand, by pigeonhole. |
| TfsInvariant.AllocationsSucceed | P2/fs/state.c:256-268 | So inode_create and data_block_alloc never return -1. |
| TfsRefinement.LookupRefines | P2/fs/operations.c:60-69 | A bound name leads to its live file with its content, any other name to -1. |
| TfsNames.InvalidPathFails | P2/fs/operations.c:60-121 | A path that is too short or has no leading slash is not found, and opening it without TFS_O_CREAT fails and changes nothing. |
| TfsRefinement.TruncateRefines | P2/fs/operations.c:93-100 | Truncation, wherever handles stand, empties one file and changes no other file and no handle. |
| TfsRefinement.TruncateKeepsHandlesIff | P2/fs/operations.c:93-100 | Truncation keeps the tables consistent wherever handles stand, and keeps handles within their files if and only if no open handle of the file is past 0. |
| TfsRefinement.ReadLengthIff | P2/fs/operations.c:224-227 | The length is what is left if and only if the offset is within the size or nothing is asked for; past the size the subtraction wraps. |
| TfsRefinement.CreateRefines | P2/fs/operations.c:107-119 | From every state with consistent tables, a create adds one empty file; with a full directory it fails and leaves live inodes, blocks, directory, handles and all contents as they were. |
| TfsRefinement.AddHandleRefines | P2/fs/state.c:305-316 | The lowest free handle is taken and counted. |
| TfsRefinement.CloseRefines | P2/fs/state.c:323-331 | A close gives back exactly its handle; closing what is not open changes nothing. |
| TfsRuns.WriteRefines | P2/fs/operations.c:158-199 | Through a handle within its file, a write splices what fits below 1024 bytes, returns min(n, 1024 - offset), extends the file to the larger end and never fails. |
| TfsRuns.ReadRefines | P2/fs/operations.c:211-243 | Through a handle within its file, a read returns the min(len, size - offset) bytes at the offset; the subtraction does not wrap. |
| TfsRuns.OpenRefines | P2/fs/operations.c:80-131 | An open binds, empties and positions as the abstract file system does, with the same handle or error. |
| TfsRuns.InitRefines | P2/fs/operations.c:12-29 | tfs_init succeeds and stands for the empty file system. |
| TfsRuns.RunsRefine | P2/fs/operations.c:80-243 | Whole-run refinement to name to bytes and handle to name and offset, with truncation free and data through handles within their files; at most 24 TAKEN inodes and blocks, and open_file_count equal to the number of open handles. |
| TfsRuns.RunsStayWithin | P2/fs/operations.c:80-243 | When truncation waits until no open handle of the file is past 0, data calls through any open handle are covered, and offset <= size <= 1024 always. |
| TfsTables.WriteOnOpenHandle | P2/fs/operations.c:158-199 | A write through an open handle, wherever it stands, never returns -1: up to byte 1024 it returns min(n, 1024 - offset), past it it leaves the arrays; a completed write keeps the tables. |
| TfsTables.ReadKeepsTables | P2/fs/operations.c:211-243 | A read of any length at any offset keeps the tables. |
| TfsTables.ReadReturns | P2/fs/operations.c:211-243 | A read at any offset returns min(len, i_size - of_offset), wrapped past the size, with the bytes of the block from there on, and moves its handle by as many; -1 without a block, a fault past fs_data. |
| TfsTables.GivesBackItsBlock | P2/fs/state.c:144-162 | Deletion and truncation of a file that is not empty free exactly its block, fail if and only if it has none, and change nothing else. |
| TfsTables.NoBlockLeft | P2/fs/operations.c:158-199 | With every block TAKEN a write to an empty file returns -1 and leaves i_data_block -1, and a directory is not created. |
| TfsTables.StepKeepsTables | P2/fs/operations.c:60-243 | Every call on names of 1 to 39 bytes and open handles that does not leave the arrays keeps the tables consistent, whatever it truncates. |
| TfsTables.TablesHold | P2/fs/state.c:93-331 | Over all such runs from tfs_init: TAKEN blocks in bijection with the inodes that use one, live files with directory entries of different names, open_file_count the number of open handles, at most 24 TAKEN inodes and blocks, both allocators find a free entry, no write through an open handle returns -1, and a create into a full directory rolls back. |
| TfsRuns.HandleCount | P2/fs/state.c:305-331 | open_file_count is the number of open handles. |
| TfsNames.CreateKeepsNames | P2/fs/operations.c:107-119 | A creation that binds a new clipped name, or none, keeps the tables consistent. |
| TfsNames.OpenKeepsNamesIff | P2/fs/operations.c:107-119 | Names stay unique if and only if the clipped name that the create binds is new, or it binds nothing. |
| TfsNames.ValidPathsBindNewNames | P2/fs/operations.c:60-69 | With a leading slash and fewer than 40 characters that is always so. |
| TfsExamples.MissingSlashBindsTwice | P2/fs/operations.c:107-115 | From tfs_init, creating "/a" and then "xa" binds "a" twice. |
| TfsExamples.TruncateUnderHandle | P2/fs/operations.c:93-100 | From tfs_init, emptying "/a" while a handle stands at 1 leaves inconsistent tables, and reading a byte through it returns 1. |
| TfsImpl.Tfs.BlockAlloc | P2/fs/state.c:256-268 | In place, the specified allocation. |
| TfsImpl.Tfs.Create | P2/fs/state.c:93-136 | In place, the specified new inode. |
| TfsImpl.Tfs.Delete | P2/fs/state.c:144-162 | In place, the specified deletion. |
| TfsImpl.Tfs.Find | P2/fs/state.c:227-250 | The specified search. |
| TfsImpl.Tfs.AddEntry | P2/fs/state.c:187-219 | In place, the specified entry. |
| TfsImpl.Tfs.AddHandle | P2/fs/state.c:305-316 | In place, the handle and the count. |
| TfsImpl.Tfs.RemoveHandle | P2/fs/state.c:323-331 | In place, the handle and the count. |
| TfsImpl.Tfs.Init | P2/fs/operations.c:12-29 | In place, the specified fresh file system. |
| TfsImpl.Tfs.Open | P2/fs/operations.c:80-131 | In place, the specified open with all its error exits. |
| TfsImpl.Tfs.Close | P2/fs/operations.c:145-156 | In place, the specified close, and the signal exactly when no file is open afterwards. |
| TfsImpl.Tfs.Write | P2/fs/operations.c:158-199 | In place, the specified write. |
| TfsImpl.Tfs.Read | P2/fs/operations.c:211-243 | In place and into the caller's buffer, the specified read. |
| Shutdown.NoLostWakeup | P2/fs/operations.c:46-58 | In every interleaving, while the destroyer waits unsignalled a file is open or the lock's holder is a closer about to signal. |
| Shutdown.LastCloseReleases | P2/fs/operations.c:145-156 | In every interleaving, that closer's next step releases the waiter. |
| Shutdown.DestroyOnlyWhenClosed | P2/fs/operations.c:46-58 | Without spurious wakeups and without an opener caught between test and lock, tfs_destroy is reached only with count 0, and no file is open from then on. |
| Shutdown.PendingOpenDestroysIff | P2/fs/operations.c:133-143 | Once the destroyer has the lock, the file system can end up destroyed under an open file without a spurious wakeup if and only if an opener stands between the CLOSING test and the lock. |
| Shutdown.LateOpenerRun | P2/fs/operations.c:133-143 | That happens from every start with two threads. |
| Shutdown.DestroyedOpenIff | P2/fs/operations.c:46-58 | Once the destroyer has the lock, some run, with the spurious wakeups that section pthread_cond_wait of IEEE Std 1003.1-2008 allows, destroys the file system with a file open if and only if a file is open then or an opener stands between the CLOSING test and the lock. |
| Shutdown.SpuriousWakeupDestroys | P2/fs/operations.c:50-56 | One spurious wakeup while a file is open destroys the file system with that file open. |
| Shutdown.SpuriousRun | P2/fs/operations.c:46-58 | That happens from every start with an open file, by moves of the destroyer alone. |
| Shutdown.OpenIsInOpenStep | P2/fs/operations.c:80-131 | tfs_open adds the handle it returns to the open ones and raises the count by one, or leaves both alone. |
| Shutdown.CloseIsInCloseStep | P2/fs/state.c:323-331 | tfs_close takes an open handle out and lowers the count by one, or leaves both alone. |
| Shutdown.OpenStepAgrees | P2/fs/operations.c:80-131 | The protocol's open step, with the handle or -1 that tfs_open returns, leaves the handles and the count that tfs_open leaves. |
| Shutdown.CloseStepAgrees | P2/fs/state.c:323-331 | The protocol's close step leaves those that tfs_close leaves, for handles that are not open too. |
| Shutdown.OpenCall | P2/fs/operations.c:133-143 | A whole tfs_open with nothing in between is refused while closing and otherwise leaves handles and count as the file system's open does, the lock free. |
| Shutdown.CloseCall | P2/fs/operations.c:145-156 | A whole tfs_close leaves them as the file system's close does and signals a waiter if and only if no file is open afterwards. |
| Framing.ParseFrame | P2/fs/tfs_server.c:128-433 | In front of any stream, the first round of the producer takes a frame's command and leaves only zero padding of it. |
| Framing.OneFrame | P2/fs/tfs_server.c:128-433 | Each frame yields one command and exactly its 100 bytes are consumed. |
| Framing.FramesInStep | P2/client/tecnicofs_client_api.c:121-264 | For every sequence of requests the server gets one command per request, in order. |
| Framing.CutStream | P2/fs/tfs_server.c:128-433 | After the first n bytes of the stream, for any n, the producer has had exactly the commands whose bytes lie among them, in order. |
| Framing.SkipNoise | P2/fs/tfs_server.c:128-156 | Bytes between commands that are no op codes are skipped one by one, whatever follows. |
| Framing.ArrivesIntactIff | P2/client/tecnicofs_client_api.c:121-227 | Every request arrives as meant except an open with flags or with a name that is not zero in bytes 1 to 4, and a read of a length other than 0. |
| MessagesImpl.RequestArrives | P2/fs/tfs_server.c:128-433 | The frame of a request leaves the caller's arguments in its session's slot, name and flags as the frame carries them, and no other field or session changes; that of a mount claims exactly the free sessions with its pipe name. |
| MessagesImpl.SessionIsOwnIff | P2/fs/tfs_server.c:196-211 | However commands and releases of sessions follow each other, session k is at all times what its own commands make of it if and only if no mount arrives while k is free. |
| MessagesImpl.NeverFull | P2/fs/tfs_server.c:157-196 | session_count never rises, so a mount is never turned away. |
| MessagesImpl.FramesDelivered | P2/fs/tfs_server.c:128-433 | The frames of any requests with known sessions are all delivered, and a session is its own at all times under exactly that condition. |
| MessagesImpl.MountOverwrites | P2/fs/tfs_server.c:196-211 | On a fresh server a close from session 3 is lost when another client mounts. |
| MessagesImpl.Client.Mount | P2/client/tecnicofs_client_api.c:51-52 | The buffer is the mount frame. |
| MessagesImpl.Client.Unmount | P2/client/tecnicofs_client_api.c:91-93 | The buffer is the unmount frame. |
| MessagesImpl.Client.Open | P2/client/tecnicofs_client_api.c:121-125 | The buffer is the open frame, flags over name. |
| MessagesImpl.Client.Close | P2/client/tecnicofs_client_api.c:155-158 | The buffer is the close frame. |
| MessagesImpl.Client.Write | P2/client/tecnicofs_client_api.c:188-193 | The buffer is the write frame. |
| MessagesImpl.Client.Read | P2/client/tecnicofs_client_api.c:224-227 | The buffer is the read frame, without a length. |
| MessagesImpl.Client.Shutdown | P2/client/tecnicofs_client_api.c:260-262 | The buffer is the shutdown frame. |
| MessagesImpl.Server.Round | P2/fs/tfs_server.c:128-433 | One round does to the sessions what the parsed command says. |
| MessagesImpl.Server.Mount | P2/fs/tfs_server.c:156-213 | The loop without a break claims exactly the free sessions. |
| MessagesImpl.Server.Release | P2/fs/tfs_server.c:474-477 | A consumer gives its session back. |
| MessagesImpl.Server.Producer | P2/fs/tfs_server.c:128-433 | The loop delivers exactly the commands of the stream, in order, and stops at the first without a session. |

## Left out

- StoreRuns.RunsKeepOwnership: restricted to data calls through open handles at positions below 266 blocks, to reads that
  do not start past `i_size` and to writes past `i_size` that find enough blocks; outside these the code leaves its
  arrays or leaks blocks (`StoreLimit.PastTheLastBlock`, `StoreHistory.TruncateExactIff`).
- StoreRefinement.RunsRefineFlat: restricted further to writes that find enough blocks and reads of bytes that have been
  written, because the content of a fresh block is whatever fs_data held, and a write that fails midway keeps what it put.
- TfsRuns.RunsRefine: restricted to names of 1 to 39 bytes, data through open handles within their files, and write lengths
  that do not wrap when added to the offset; `TfsTables`, `TfsNames` and `ReadLengthIff` cover what happens outside.
- TfsTables.TablesHold: restricted to names of 1 to 39 bytes, open handles and calls that stay inside the arrays.
- StoreSize.SizeIsLengthIff: says nothing of files written to past `i_size`, where a handle stands only after a truncation
  through another open.
- ConcurrentUpdate.InterleavingsAreSafe: threads run `inode_update` only. Truncation, deletion and the directory are
  unlocked or split over two lock regions, and the copies of data are not ordered, so no such claim is made for them;
  the index block is 256 integers there.
- Shutdown.PendingOpenDestroysIff: one destroyer, and another idle thread that can close files. Reads, writes and lookups
  are not steps because they do not touch the count.
- Framing.FramesInStep: data of at most 83 bytes and reads that return all bytes asked for; a longer write overruns the
  client's buffer.
- MessagesImpl.Server.Producer: covers the bytes between two releases of sessions; what consumers do other than giving a
  session back, their wait without a predicate, and the replies are not modelled.
- Pipes: opening, closing, unlinking, EINTR, partial reads, end of file and exits.
- BlockStoreImpl.BlockStore.CopyOut: the external file is whether it opens and how many bytes it takes; stdio buffering and
  the result of `fclose` are not modelled. The zero-length array that the copy of an empty file declares is taken to be
  harmless.
- `insert_delay` and `touch_all_memory`, which only take time.
- Results of pthread calls other than success, weak memory effects, and the initialisation of the locks.
- NULL paths; flags are three Booleans instead of a bit mask.
- Part one with a write length so large that `to_write + of_offset` wraps, and the overflow of `of_boffset` itself; part two
  models the wrap.
- The CLOSING test of tfs_open in `TfsImpl.Tfs.Open`: it belongs to `Shutdown`.
- `clear_dir_entry`, and `tfs_copy_to_external_fs` in part two: declared but not implemented.
