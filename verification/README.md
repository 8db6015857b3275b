# Verified models of the framework's concurrent protocols and allocators

This project models seven parts of a C++ systems framework and proves what they
keep over every input, every interleaving and every run.

* **Rendezvous** (`misc/MultiSem.c`): a main process and n children meet in
  rounds through one semaphore set and one message queue. The atomic step is a
  whole `semop` array, all or nothing as POSIX.1 specifies; rounds are unbounded.
* **Static allocator** (`Mem/XStaticAlloc.*`): first fit over a self-describing
  byte area, with free ranges merged on release and blocks squeezed out of the
  tail of the record array. `AreaTiles` treats the managed memory as a row of
  live and free tiles, `AreaImage` the bytes of header, flag bits and records,
  `AreaBook` the decisions of `Alloc` and `Free`, `AreaSafety` the weaker books that
  remain after a reload, `StaticAlloc` books and bytes together, `AreaRecovery`
  format, load and whole runs, `AreaExamples` runs in
  which a promise fails, and `StaticAllocator` the object that works in place.
* **Paged memory** (`Mem/MemMgr.*`): units of a fixed size from 4096-byte pages.
* **Timer manager** (`Thread/TimerMgrImpl_Linux.*`, `Thread/Timer.h`): the ticker
  and the two workers. On the repeat side ticker and worker hold only read locks
  at the same time, so a step there is a single access to a shared field.
* **Task barrier** (`Thread/TaskCtrlImpl_Linux.cpp` and the two objects under it).
* **Session balancer** (`Net/BalanceHandle_Linux.cpp`): ranges and wake-ups.
* **Reference-counted pointers** (`Mem/RefPtr.h`), non-loop mode.
* **Package framing** (`Net/DataHandle.h`): packages cut into frames, frames laid
  over send buffers, and joined again by the receiver. `PackageFraming` is the
  sender, `PackageDelivery` what arrives, `PackageExamples` calls that go wrong.

`Arith`, `Counting`, `Bytes`, `Options` and `TimerUnits` hold what several of them need.

A protocol between threads or processes is a state machine: `Enabled` says when a
step can be taken, `Do` what it does, and the theorems quantify over all runs.
Where the program updates an object or a buffer in place, a class or a method with
a loop does the same and is proved equal to a function on values; the theorems are
about that function. Memory addresses are offsets or numbers. An ordered map
(`std::map` from address to length) is a sequence sorted by key.

## What turned out false, and the exact conditions

* The rendezvous deadlocks when the message queue holds fewer messages than there
  are children; it is deadlock-free exactly when it has room for one each
  (`Rendezvous.DeadlockFree`).
* The barrier's weight is an unsigned char. The barrier holds exactly when the
  registered workers do not outnumber the weight modulo 256
  (`TaskBarrier.BarrierExact`).
* `XStaticAlloc::Alloc` does not check that a record slot is left. A successful
  call leaves the books sound exactly when the stored count is below the limit
  (`AreaBook.AllocSoundIff`; `AreaExamples.ByteLost` loses a byte).
* It does not check either where the record it writes lies. An area is recoverable
  when load returns the live blocks and their slots whatever clients write into their
  blocks; that is so exactly when every used slot holds its block and no byte of a
  used record is inside a live block (`AreaRecovery.RecoverableIff`). From such an
  area Alloc leads to such an area exactly when neither the new record nor the new
  block clashes with what is there (`AreaRecovery.AllocRecoverableIff`); while all used
  slots end below the squeeze boundary, that is exactly when the new record's 8 or 12
  bytes end below it too (`AreaRecovery.LowRecoverableIff`). In
  `AreaExamples.RecordOverBlock` a record overwrites a client's byte.
* `LoadBlockArea` forgets the gap before the last record, and the tail behind a
  single record. What it rebuilds is always free, and is everything exactly when
  those gaps are empty (`AreaRecovery.LoadFinds`; `AreaExamples.TailMissed`).
* `BuildPackage` misplaces a length byte when a header is split after 6, 7, 12 or 13
  bytes (`PackageFraming.TableExact`). A header split elsewhere sends its frame
  correctly but leaves the offset behind by the part of the header that went into the
  next buffer; every further frame then fails or the last bytes of the stream, as many
  as the offset lags, are missing (`PackageDelivery.FirstMisfit`). The buffers carry the
  frames exactly when all fit without splitting a header, or all but the last do and the
  last one splits where that works (`PackageDelivery.StreamExact`); the receiver parses
  exactly the frames under the same condition, provided that a call which stops at the
  capacity check did not split a header in front of a payload
  (`PackageDelivery.FramingRoundTrip`). `PackageExamples.SplitLosesBytes` loses 23 bytes.
* A call whose first package fails the capacity check retries with a buffer of capacity
  zero added; no number of retries helps. It returns exactly when the queue is empty or
  the first package passes (`PackageDelivery.ReturnsIff`,
  `PackageExamples.RetriedForEver`).
* The capacity check counts one header per package and ignores where buffers end: a
  frame that exactly fills the last buffer makes the code read past the buffer list
  (`PackageExamples.LastBufferFilled`), and a package of two frames can pass the check
  without room for both (`PackageExamples.CheckAdmitsTooMuch`).
* Assigning to a `RefPtr` never frees what it held: the memory is leaked exactly when
  the target was its only holder (`RefPointers.AssignmentLeaks`).

The comment at `Mem/XStaticAlloc.h:114` puts the count in the high half of the
reserved word; the code stores it in the first unsigned short, and the model
follows the code, with numbers little-endian. `misc/MultiSem.c:35` initialises for two children; the model has n.

## Model

| member | source | states |
|---|---|---|
| `Rendezvous.BulkOps` | misc/MultiSem.c:96-113 | main's array applies exactly when every child semaphore can take the change, and then changes each by the same amount and nothing else |
| `Rendezvous.ChildSemops` | misc/MultiSem.c:51-86 | what each child array needs and changes, as one condition on single semaphores |
| `Rendezvous.ChildStep` | misc/MultiSem.c:50-87 | under the invariant each child step is enabled by one condition, and its effect |
| `Rendezvous.MainStep` | misc/MultiSem.c:96-113 | the same for main's steps 2, 5, receive and 6 |
| `Rendezvous.StepKeepsInv` | misc/MultiSem.c:49-115 | every step of every process keeps the invariant on semaphores, places and queue |
| `Rendezvous.RunKeepsInv` | misc/MultiSem.c:49-115 | so does every run, for any number of children and rounds |
| `Rendezvous.SameRoundData` | misc/MultiSem.c:101-107 | when main can pass step 5 of round r the queue holds exactly one message per child, all of round r |
| `Rendezvous.MainGotTheRound` | misc/MultiSem.c:103-113 | at step 6 main has received exactly those messages and the queue is empty |
| `Rendezvous.Lockstep` | misc/MultiSem.c:49-88 | no child passes step 3 of round r+1 before every child finished step 8 of round r |
| `Rendezvous.ResetBetweenRounds` | misc/MultiSem.c:35-115 | the semaphores hold their initial values exactly when every child is back at step 1, and then all processes are in one round |
| `Rendezvous.SomeoneCanStep` | misc/MultiSem.c:49-115 | with room for one message per child some process can always go on |
| `Rendezvous.RoundsAdvance` | misc/MultiSem.c:49-115 | under any scheduler round r is over within r(7n+3) steps, so no process is starved for ever |
| `Rendezvous.DeadlockFree` | misc/MultiSem.c:34-115 | no reachable state is stuck if and only if the queue capacity is at least n |
| `AreaTiles.TilesPartition` | Mem/XStaticAlloc.cpp:56-128 | in a row of tiles every byte of the span is in a live or in a free range, not in both |
| `AreaTiles.LengthsAddUp` | Mem/XStaticAlloc.cpp:423-426 | live and free lengths add up to the span |
| `AreaTiles.FreeRangesApart` | Mem/XStaticAlloc.cpp:198-221 | without neighbouring free tiles no two free ranges touch |
| `AreaTiles.SweepIsMerge` | Mem/XStaticAlloc.cpp:198-221 | the coalescing sweep over the free ranges gives the free tiles of the row with free neighbours merged |
| `AreaTiles.MergeNoFreePair` | Mem/XStaticAlloc.cpp:198-221 | after merging no two free tiles are neighbours |
| `AreaTiles.MergeRejoins` | Mem/XStaticAlloc.cpp:196-221 | splitting a free tile and merging gives the row back |
| `AreaTiles.TakeKeeps` | Mem/XStaticAlloc.cpp:72-80 | taking the front of a free range keeps the row tiled, with erase and insert as the code does them |
| `AreaTiles.ReleaseRanges` | Mem/XStaticAlloc.cpp:188-196 | releasing a block moves exactly its range from the live to the free ones |
| `AreaTiles.TrimKeeps` | Mem/XStaticAlloc.cpp:223-242 | the correction of the squeeze offset keeps the row tiled and leaves a live tile at a boundary below the start |
| `AreaImage.StoreBit` | Mem/XStaticAlloc.cpp:137-143 | setting or clearing one bit of a flag byte changes that flag and no other |
| `AreaImage.ScanFindsHighest` | Mem/XStaticAlloc.cpp:84-109 | when the count is the number of set bits the squeeze scan stops at the highest one |
| `AreaImage.ScanFreeFinds` | Mem/XStaticAlloc.cpp:129-148 | the slot search stops at the lowest clear bit, or at the last bit when all are set |
| `AreaImage.LayoutFits` | Mem/XStaticAlloc.cpp:288-303 | the usable memory starts inside the area, is empty only when the area is just the header, and every slot has a flag bit |
| `AreaImage.LimitIsLargest` | Mem/XStaticAlloc.cpp:290-294 | a record takes two pointers, and n blocks are allowed if and only if n records, n flag bits and n usable bytes fit behind the header |
| `AreaImage.LayoutParts` | Mem/XStaticAlloc.cpp:294-301 | where flags, records and usable memory begin |
| `AreaImage.WordsInPlace` | Mem/XStaticAlloc.cpp:259-274 | count, limit, lengths, offset and records, byte by byte at their places in the area |
| `AreaImage.SymbolSpells` | Mem/XStaticAlloc.h:28-28 | the identifier is the eight characters of its name |
| `AreaImage.SetRecordEffect` | Mem/XStaticAlloc.cpp:150-154 | a stored record reads back, and no header word, flag or other record changes |
| `AreaImage.SetBitEffect` | Mem/XStaticAlloc.cpp:142-142 | a stored flag reads back, and no header word or record changes |
| `AreaBook.SoundMeans` | Mem/XStaticAlloc.cpp:56-128 | sound books mean: blocks and free ranges partition the managed bytes, lengths add up to the available size, free ranges are apart, the squeeze boundary is live |
| `AreaBook.FreeSlotFound` | Mem/XStaticAlloc.cpp:129-150 | with a slot left the search finds the lowest unused one, below the limit |
| `AreaBook.RegisterKeeps` | Mem/XStaticAlloc.cpp:129-160 | registering a block keeps bit count, stored count, slot map and length map in agreement |
| `AreaBook.UnregisterKeeps` | Mem/XStaticAlloc.cpp:174-193 | so does unregistering |
| `AreaBook.TakeRangeRow` | Mem/XStaticAlloc.cpp:64-80 | the row after a first-fit allocation |
| `AreaBook.SqueezeRow` | Mem/XStaticAlloc.cpp:110-127 | the row after a squeeze: the block sits right below the old boundary |
| `AreaBook.AllocKeepsBooks` | Mem/XStaticAlloc.cpp:56-166 | Alloc with a slot left keeps the books sound, whichever way the block came |
| `AreaBook.FreeRow` | Mem/XStaticAlloc.cpp:188-242 | the row after Free: tile turned free, neighbours merged, boundary trimmed |
| `AreaBook.FreeKeepsBooks` | Mem/XStaticAlloc.cpp:168-245 | Free of any address, known or not, keeps the books sound |
| `AreaBook.FullBook` | Mem/XStaticAlloc.cpp:84-120 | with all slots used nothing can be squeezed |
| `AreaBook.AllocSoundIff` | Mem/XStaticAlloc.cpp:129-160 | a successful Alloc leaves sound books if and only if the count was below the limit |
| `AreaBook.AllocFailsIff` | Mem/XStaticAlloc.cpp:64-120 | Alloc returns NULL if and only if no free range is long enough and the gap above the highest used slot and a spare one is too short |
| `AreaBook.AllocLowest` | Mem/XStaticAlloc.cpp:64-80 | when a free range fits, the block is the front of the lowest-address one |
| `AreaBook.SqueezeSafe` | Mem/XStaticAlloc.cpp:84-158 | a squeezed block lies above every used slot and above the slot the same call writes, and a slot is always left |
| `AreaBook.FreeUndoesAlloc` | Mem/XStaticAlloc.cpp:72-128 | freeing the block just allocated restores bits, count, offset and all three maps, for a split range and for a squeeze, merged with a range at the start or not |
| `AreaBook.FreeEffect` | Mem/XStaticAlloc.cpp:174-242 | Free removes exactly that block and never raises the offset |
| `AreaSafety.SoundIsSafe` | Mem/XStaticAlloc.cpp:56-245 | sound books are safe |
| `AreaSafety.SafeMeans` | Mem/XStaticAlloc.cpp:56-245 | safe books mean: no byte in two blocks or in a block and a free range, all of it managed memory |
| `AreaSafety.AllocEffect` | Mem/XStaticAlloc.cpp:56-166 | everything a successful Alloc changes in safe books, and that they stay safe |
| `AreaSafety.AllocSafe` | Mem/XStaticAlloc.cpp:56-166 | Alloc keeps safe books safe when it fails or a slot was left |
| `AreaSafety.FreeSafe` | Mem/XStaticAlloc.cpp:168-245 | Free of any address keeps safe books safe, though free ranges may have been lost before |
| `StaticAlloc.AllocFollowsBook` | Mem/XStaticAlloc.cpp:127-162 | the header words and flag bits after Alloc say what the books say |
| `StaticAlloc.FreeFollowsBook` | Mem/XStaticAlloc.cpp:179-242 | the same for Free |
| `StaticAlloc.AllocHealthyIff` | Mem/XStaticAlloc.cpp:56-166 | on bytes: success keeps the area healthy if and only if a slot was left; failure changes nothing |
| `StaticAlloc.FreeHealthy` | Mem/XStaticAlloc.cpp:168-245 | Free keeps a healthy area healthy |
| `StaticAlloc.FreeUndoes` | Mem/XStaticAlloc.cpp:72-242 | on bytes: Free after Alloc restores bits, count, offset and maps |
| `StaticAlloc.AllocRecords` | Mem/XStaticAlloc.cpp:149-162 | after Alloc the found slot holds the block, and every other record that is off the block is unchanged |
| `StaticAlloc.AllocImage` | Mem/XStaticAlloc.cpp:129-162 | Alloc leaves every used slot holding its block outside all live blocks exactly when there is no clash |
| `StaticAlloc.ClashIff` | Mem/XStaticAlloc.cpp:129-158 | while used slots end below the boundary, there is no clash if and only if the record to be written ends below it |
| `StaticAlloc.ReachesBoundary` | Mem/XStaticAlloc.cpp:129-158 | otherwise that record contains the boundary byte, which is the first byte of a live block |
| `StaticAlloc.AllocKeepsLow` | Mem/XStaticAlloc.cpp:110-158 | writing a whole slot below the boundary keeps all used slots below it, also when a squeeze moves the boundary |
| `StaticAlloc.AllocRespectsClients` | Mem/XStaticAlloc.cpp:149-162 | the block handed out is all zero, and without a clash no byte of a live block changes |
| `StaticAlloc.FreeRespectsClients` | Mem/XStaticAlloc.cpp:179-242 | Free changes nothing behind the flag bits |
| `StaticAlloc.FreeImage` | Mem/XStaticAlloc.cpp:168-245 | Free keeps the image |
| `StaticAlloc.WriteImage` | Mem/XStaticAlloc.h:37-49 | a client that writes inside a live block keeps books and image |
| `AreaRecovery.FormatReads` | Mem/XStaticAlloc.cpp:278-312 | a formatted area reads back with its limits, no flag set, count and offset zero |
| `AreaRecovery.FormatHealthy` | Mem/XStaticAlloc.cpp:278-312 | and it is healthy with an intact image |
| `AreaRecovery.HeaderOnly` | Mem/XStaticAlloc.cpp:278-312 | an area that is only a header serves no request and never changes |
| `AreaRecovery.LoadedPrefix` | Mem/XStaticAlloc.cpp:335-352 | after k flag bits load knows exactly the blocks whose slots are below k |
| `AreaRecovery.LoadRecovers` | Mem/XStaticAlloc.cpp:316-352 | from an intact image load recovers the live blocks and their slots exactly |
| `AreaRecovery.RecoverableIff` | Mem/XStaticAlloc.cpp:316-352 | load returns the live blocks and slots, whatever clients write into their blocks, if and only if every used slot holds its block and no byte of it is in a live block |
| `AreaRecovery.AllocRecoverableIff` | Mem/XStaticAlloc.cpp:129-162 | from a recoverable area Alloc leads to a recoverable one if and only if there is no clash, and then no byte of a live block changed |
| `AreaRecovery.LowRecoverableIff` | Mem/XStaticAlloc.cpp:129-162 | while used slots end below the squeeze boundary: if and only if the record to be written ends below it |
| `AreaRecovery.RebuiltCompared` | Mem/XStaticAlloc.cpp:354-389 | every rebuilt range is a free range; all are rebuilt if and only if no gap is missed |
| `AreaRecovery.LoadFinds` | Mem/XStaticAlloc.cpp:316-401 | what load or refresh finds in a healthy area with its image, disjoint from all live blocks |
| `AreaRecovery.LoadCoherent` | Mem/XStaticAlloc.cpp:316-401 | an area that is loaded again, and used on, keeps its blocks, slots and safe books |
| `AreaRecovery.RunPartition` | Mem/XStaticAlloc.cpp:56-245 | in every state of every run of Alloc, Free and client writes: partition, lengths equal to the available size, free ranges apart, boundary live |
| `AreaRecovery.RunRecovers` | Mem/XStaticAlloc.cpp:316-401 | in every state of every such run without clashes load recovers blocks and indices exactly, finds only true free ranges, and all of them if and only if no gap is missed |
| `AreaRecovery.RunSafe` | Mem/XStaticAlloc.cpp:56-401 | in every state of every run without clashes, reloads included: no byte in two blocks or in a block and a free range, counts and maps agree, and the area is recoverable |
| `AreaExamples.ByteLost` | Mem/XStaticAlloc.cpp:149-160 | an area whose one byte is handed out, recorded nowhere, and cannot be freed |
| `AreaExamples.RecordOverBlock` | Mem/XStaticAlloc.cpp:129-160 | a run after which a successful Alloc turns a client's byte into a record byte and leaves the area unrecoverable |
| `AreaExamples.TailMissed` | Mem/XStaticAlloc.cpp:356-384 | a state from which load rebuilds no free range although three bytes are free |
| `StaticAllocator.FindUsed` | Mem/XStaticAlloc.cpp:84-109 | the nested bit loop computes the squeeze scan |
| `StaticAllocator.TakeSlot` | Mem/XStaticAlloc.cpp:129-148 | the nested bit loop finds the free slot and sets its bit in the buffer |
| `StaticAllocator.FindFit` | Mem/XStaticAlloc.cpp:64-71 | the loop finds the first range that fits |
| `StaticAllocator.Sweep` | Mem/XStaticAlloc.cpp:198-221 | the loop with a previous entry computes the coalesced ranges |
| `StaticAllocator.RebuildRanges` | Mem/XStaticAlloc.cpp:354-389 | the loop over the records inserts exactly the rebuilt ranges |
| `StaticAllocator.XStaticAlloc.Init` | Mem/XStaticAlloc.cpp:29-54 | refuses, formats or loads, by the identifier alone, with the state that results |
| `StaticAllocator.XStaticAlloc.FormatBlockArea` | Mem/XStaticAlloc.cpp:278-312 | writes the formatted image |
| `StaticAllocator.XStaticAlloc.LoadBlockArea` | Mem/XStaticAlloc.cpp:316-392 | builds the loaded maps and leaves the bytes alone |
| `StaticAllocator.XStaticAlloc.Refresh` | Mem/XStaticAlloc.cpp:394-401 | the state is what load finds in the bytes |
| `StaticAllocator.XStaticAlloc.ChooseBlock` | Mem/XStaticAlloc.cpp:64-128 | first fit or squeeze, with the map and the offset word it leaves, or nothing changed |
| `StaticAllocator.XStaticAlloc.RecordBlock` | Mem/XStaticAlloc.cpp:149-160 | record, both maps and count when the slot is below the stored limit, else nothing |
| `StaticAllocator.XStaticAlloc.Alloc` | Mem/XStaticAlloc.cpp:56-166 | bytes, maps and result are those of the allocation on values, for every length from zero |
| `StaticAllocator.XStaticAlloc.Free` | Mem/XStaticAlloc.cpp:168-245 | the same for release |
| `StaticAllocator.XStaticAlloc.CorrectOffset` | Mem/XStaticAlloc.cpp:223-242 | the offset correction in place |
| `StaticAllocator.XStaticAlloc.GetMgrBlockCountLimit` | Mem/XStaticAlloc.cpp:403-411 | the largest number of blocks for which records, flag bits and a byte each fit, or -1 before Init |
| `StaticAllocator.XStaticAlloc.GetUseCount` | Mem/XStaticAlloc.cpp:413-421 | in a healthy area, the number of live blocks |
| `StaticAllocator.XStaticAlloc.GetNormalAvailableSize` | Mem/XStaticAlloc.cpp:423-426 | in a healthy area, the bytes of all live blocks and free ranges |
| `PagedMemory.SearchFinds` | Mem/MemMgr.cpp:106-131 | the plain search returns the least index of n free units, or -1 exactly when there is none |
| `PagedMemory.FindAvailable` | Mem/MemMgr.cpp:106-131 | the pointer loop refines the plain search, for every n |
| `PagedMemory.LayoutFits` | Mem/MemMgr.cpp:89-103 | flag string and terminator end before the data area, which ends with the page |
| `PagedMemory.CapacityIsLargest` | Mem/MemMgr.cpp:90-92 | a page holds as many units as fit with one flag each, node and terminator, and no more |
| `PagedMemory.MarkKeepsInv` | Mem/MemMgr.cpp:48-55 | marking a free run adds a block disjoint from all others, all zero |
| `PagedMemory.ReleaseKeepsInv` | Mem/MemMgr.cpp:70-76 | releasing a live block keeps the invariant |
| `PagedMemory.ReleaseUndoesMark` | Mem/MemMgr.cpp:48-76 | freeing the block just handed out restores flags, hint and bytes |
| `PagedMemory.WriteKeepsInv` | Mem/MemMgr.h:34-37 | a client that writes only its own block disturbs nothing |
| `PagedMemory.FreeFindsOwner` | Mem/MemMgr.cpp:59-69 | the inclusive upper bound still selects the page that owns the block, and the division its index |
| `PagedMemory.ExpendKeepsInv` | Mem/MemMgr.cpp:89-104 | a new page is all free and zero and disturbs no live block |
| `PagedMemory.AllocKeepsInv` | Mem/MemMgr.cpp:27-57 | what Alloc gives, or that no page had room |
| `PagedMemory.AllocTakesLeast` | Mem/MemMgr.cpp:27-47 | the block is the least run in the first page that has one, a page is added exactly when none has, and NULL means that a page is too small |
| `PagedMemory.OthersKept` | Mem/MemMgr.cpp:27-79 | Alloc and Free change no byte of any other live block |
| `PagedMemory.FreeKeepsInv` | Mem/MemMgr.cpp:59-79 | Free by address releases exactly the block that was handed out there |
| `PagedMemory.RunKeepsInv` | Mem/MemMgr.cpp:20-79 | every run of Alloc, of Free by the address and size handed out, and of client writes keeps the invariant |
| `PagedMemory.BlocksAreDisjoint` | Mem/MemMgr.cpp:20-79 | in every run live blocks are disjoint, inside their page, and the flags are '1' exactly on their union |
| `PagedMemory.BytesAreDisjoint` | Mem/MemMgr.cpp:20-103 | in every run the bytes of live blocks lie behind their page's flag string and terminator, inside the page, and no two blocks share a byte |
| `PagedMemory.HandedOutZeroed` | Mem/MemMgr.cpp:27-79 | in every run each block handed out is all zero |
| `PagedMemory.MemMgr.Expend` | Mem/MemMgr.cpp:89-104 | appends one all-free page |
| `PagedMemory.MemMgr.Alloc` | Mem/MemMgr.cpp:27-57 | pages and address are those of the allocation on values |
| `PagedMemory.MemMgr.Free` | Mem/MemMgr.cpp:59-79 | the same for release, and the exception when no page contains the address |
| `RepeatTimers.StepKeepsInv` | Thread/TimerMgrImpl_Linux.cpp:143-188 | every interleaved step of ticker, worker and writers keeps the invariant |
| `RepeatTimers.ThreadsStayInTheList` | Thread/TimerMgrImpl_Linux.cpp:52-91 | neither thread walks off the list, whatever is added or deleted meanwhile |
| `RepeatTimers.NoLostWakeup` | Thread/TimerMgrImpl_Linux.cpp:143-188 | an expired timer has a posted semaphore, a ticker that will post, or a worker that will reach it |
| `RepeatTimers.QuietMeansHandled` | Thread/TimerMgrImpl_Linux.h:49-54 | a worker asleep on a zero semaphore between ticks has handled everything |
| `RepeatTimers.StrictAlternation` | Thread/TimerMgrImpl_Linux.cpp:143-188 | expirations and callbacks of a timer strictly alternate |
| `RepeatTimers.VisitedInEveryPass` | Thread/TimerMgrImpl_Linux.cpp:166-188 | between passes each timer has had exactly one visit of the ticker per pass since it was added or last expired |
| `RepeatTimers.PassesEnd` | Thread/TimerMgrImpl_Linux.cpp:143-188 | a pass of the ticker or the worker, once begun, is over within 5 steps per timer and 4, or 3 and 2, of that thread |
| `RepeatTimers.PostsIffExpired` | Thread/TimerMgrImpl_Linux.cpp:166-188 | the ticker posts at the end of a pass if and only if a timer expired in it |
| `RepeatTimers.SemaphoreBalance` | Thread/TimerMgrImpl_Linux.cpp:139-188 | over every run the semaphore holds exactly the posts not taken yet |
| `RepeatTimers.TimersAreAsSet` | Thread/TimerMgrImpl_Linux.cpp:52-91 | over every run the list holds exactly the timers added and not deleted since, once each, in name order, with the settings last given |
| `RepeatTimers.FirstExpiration` | Thread/TimerMgrImpl_Linux.cpp:169-175 | with start 5k the first expiration is in the k-th pass after the timer was added |
| `RepeatTimers.NextExpiration` | Thread/TimerMgrImpl_Linux.cpp:176-182 | with interval 5j it expires again in the j-th pass that finds it in state 1, hence at least j passes after it last expired |
| `RepeatTimers.FirstExpirationDue` | Thread/TimerMgrImpl_Linux.cpp:169-175 | with start 5k, while the timer has not expired there were fewer than k passes since it was added |
| `RepeatTimers.NextExpirationDue` | Thread/TimerMgrImpl_Linux.cpp:176-182 | with interval 5j, while the timer counts its interval there were fewer than j passes since it was put into state 1 |
| `OnceTimers.TickLoop` | Thread/TimerMgrImpl_Linux.cpp:155-164 | the ticker's loop advances every timer and raises the flag exactly when one expires |
| `OnceTimers.CollectDue` | Thread/TimerMgrImpl_Linux.cpp:119-129 | collects exactly the indices of the expired timers and calls them in order |
| `OnceTimers.EraseFromBack` | Thread/TimerMgrImpl_Linux.cpp:130-135 | deletion by index from the back equals filtering out the expired ones |
| `OnceTimers.DealOnceHandle` | Thread/TimerMgrImpl_Linux.cpp:118-137 | expired timers are called in order, the others stay in order |
| `OnceTimers.DealConserves` | Thread/TimerMgrImpl_Linux.cpp:118-137 | no timer is lost or duplicated |
| `OnceTimers.CalledOnceAtItsTick` | Thread/TimerMgrImpl_Linux.cpp:118-164 | in every run each timer is pending or was called exactly once, and expired at the tick its start asks for |
| `OnceTimers.ExpiresAtItsTick` | Thread/Timer.h:31-37 | start 5k is marked expired from the k-th tick after it was added on and not before |
| `OnceTimers.NoLostWakeup` | Thread/TimerMgrImpl_Linux.cpp:118-164 | an expired timer has a posted semaphore or a worker on its way |
| `OnceTimers.TimersAreAsOrdered` | Thread/TimerMgrImpl_Linux.cpp:52-68 | over every run every timer in the list or called has the start its AddTimer asked for, and its age is the number of ticks since then |
| `OnceTimers.SemaphoreBalance` | Thread/TimerMgrImpl_Linux.cpp:114-164 | over every run the semaphore holds exactly the posts not taken yet |
| `TaskBarrier.StepKeepsInv` | Thread/MultiThreadSync_Linux.cpp:24-56 | every critical section of every thread keeps the invariant |
| `TaskBarrier.CountNeverWraps` | Thread/SemaphoreExImpl_Linux.cpp:19-24 | the count stays below the number of workers when done is called, so the unsigned char does not wrap |
| `TaskBarrier.NoLostWakeup` | Thread/TaskCtrlImpl_Linux.cpp:13-27 | with as many workers as the weight some thread can always run without a spurious wake-up |
| `TaskBarrier.ReturnsInTime` | Thread/TaskCtrlImpl_Linux.cpp:13-27 | without spurious wake-ups, after more than r(9k+4) steps of k workers and the coordinator under any scheduler there have been r returns |
| `TaskBarrier.TooFewNeverReturns` | Thread/SemaphoreExImpl_Linux.cpp:26-33 | with fewer workers than the weight the coordinator never returns |
| `TaskBarrier.TooManyBreaks` | Thread/SemaphoreExImpl_Linux.cpp:26-33 | with more workers than the weight some run returns before a worker is done |
| `TaskBarrier.BarrierExact` | Thread/TaskCtrlImpl_Linux.cpp:7-27 | the r-th return comes after exactly r calls of done by each worker, with flags and count zero, in every run if and only if the workers do not outnumber the kept weight |
| `TaskBarrier.BarrierForOwnCount` | Thread/TaskCtrlImpl_Linux.cpp:7-11 | for n workers and weight n: if and only if n is at most 255 |
| `SessionBalance.InitIterator` | Net/BalanceHandle_Linux.cpp:70-95 | the iterator loop computes the shares |
| `SessionBalance.SharesContiguous` | Net/BalanceHandle_Linux.cpp:70-95 | the ranges follow one another from the first session to the last |
| `SessionBalance.SharesEven` | Net/BalanceHandle_Linux.cpp:72-94 | every worker gets the same full share, and the last one also the remainder |
| `SessionBalance.OneOwner` | Net/BalanceHandle_Linux.cpp:70-95 | each session is in exactly one range |
| `SessionBalance.StepKeepsInv` | Net/BalanceHandle_Linux.cpp:113-176 | every step of workers and writers keeps the invariant |
| `SessionBalance.RangesContiguous` | Net/BalanceHandle_Linux.cpp:113-176 | after any additions and removals the ranges follow one another from the first session to the last |
| `SessionBalance.RangesPartition` | Net/BalanceHandle_Linux.cpp:113-176 | after any additions and removals each session has exactly one owner |
| `SessionBalance.VisitsAreSafe` | Net/BalanceHandle_Linux.cpp:97-103 | a visited session is in the list, not destroyed, and visited by one worker only |
| `SessionBalance.DestroyedUnvisited` | Net/BalanceHandle_Linux.cpp:156-176 | a session is destroyed only while no worker visits any |
| `SessionBalance.VisitServesRange` | Net/BalanceHandle_Linux.cpp:97-103 | a visit that is over has dealt with exactly the sessions of the worker's range, in order |
| `SessionBalance.VisitsAndWritesEnd` | Net/BalanceHandle_Linux.cpp:97-176 | a visit and a write never wait, and every step leaves less to do |
| `SessionBalance.ListIsWhatWasWritten` | Net/BalanceHandle_Linux.cpp:113-176 | over every run the session list is exactly the clients added and not removed since, in order of arrival, and the destroyed ones are exactly those added and removed later |
| `SessionBalance.SemaphoreBalance` | Net/BalanceHandle_Linux.cpp:125-150 | over every run a worker's semaphore holds exactly the posts it has not used |
| `SessionBalance.NoLostWakeup` | Net/BalanceHandle_Linux.cpp:257-269 | a worker between its empty check and its wake with a range no longer empty has a positive semaphore, or the writer is still about to post it |
| `RefPointers.Ref.AddRef` | Mem/RefPtr.h:12-20 | the registry after a registration, and its first owner |
| `RefPointers.Ref.DelRef` | Mem/RefPtr.h:21-34 | the registry after a removal; an empty set leaves it |
| `RefPointers.Ref.GetRefCount` | Mem/RefPtr.h:39-43 | the number of live pointers that hold the memory, for any pointers the registry is exact for |
| `RefPointers.Pointers.MakeFrom` | Mem/RefPtr.h:85-98 | construction from a raw pointer or NULL |
| `RefPointers.Pointers.MakeCopy` | Mem/RefPtr.h:99-107 | copy construction |
| `RefPointers.Pointers.AssignTo` | Mem/RefPtr.h:108-136 | assignment, self-assignment included |
| `RefPointers.Pointers.DestroyAt` | Mem/RefPtr.h:76-84 | destruction, with the delete it may do |
| `RefPointers.RegistryIsExact` | Mem/RefPtr.h:12-43 | after any operations the set for a pointer is exactly its live holders, what they hold is allocated, and nothing was freed twice |
| `RefPointers.FreedWithLastHolder` | Mem/RefPtr.h:76-84 | memory is freed exactly when its only holder is destroyed, however often it was wrapped |
| `RefPointers.AssignmentLeaks` | Mem/RefPtr.h:124-127 | assignment leaks the old pointer if and only if the target was its only holder and the source holds another |
| `RefPointers.ConstructHolds` | Mem/RefPtr.h:85-98 | in every run a pointer built on memory holds it, its holders and count grow by exactly it, and no other pointer changes |
| `RefPointers.CopyHolds` | Mem/RefPtr.h:99-107 | the same of a copy and what its source holds |
| `RefPointers.AssignHolds` | Mem/RefPtr.h:108-136 | after an assignment the target holds what the source holds and has left what it held; nothing is freed |
| `RefPointers.DestroyDrops` | Mem/RefPtr.h:76-84 | a destroyed pointer is gone, no other changes, and exactly what it alone held is freed |
| `PackageFraming.HeadRoundTrip` | Net/DataHandle.h:24-43 | the 24 header bytes decode to the header |
| `PackageFraming.HeadSlices` | Net/DataHandle.h:24-39 | the place of every header field among the 24 bytes |
| `PackageFraming.ParseStream` | Net/DataHandle.h:24-43 | a reader that follows the headers gets exactly the frames back |
| `PackageFraming.TableExact` | Net/DataHandle.h:292-331 | the case table places the length bytes right if and only if the split is not after 6, 7, 12 or 13 bytes |
| `PackageFraming.PatchIsFinal` | Net/DataHandle.h:269-273 | writing the length bytes later gives the final header |
| `PackageFraming.StoreLengths` | Net/DataHandle.h:342-347 | the stores through the table stay inside the buffers exactly when the table is right, and then complete the header |
| `PackageFraming.Proxy.BuildPackage` | Net/DataHandle.h:213-350 | buffers, write pointer, offset and outcome are those of laying out a frame on values |
| `PackageFraming.Proxy.Whole` | Net/DataHandle.h:236-251 | the whole-frame branch in place |
| `PackageFraming.Proxy.SplitInPayload` | Net/DataHandle.h:256-274 | the branch that splits the payload over two buffers |
| `PackageFraming.Proxy.SplitInHeader` | Net/DataHandle.h:275-349 | the branch that splits the header, with the stores through the table |
| `PackageFraming.BuildExact` | Net/DataHandle.h:235-274 | a frame leaves offset and write pointer in agreement exactly when it fits without splitting its header, and then it is appended to the stream |
| `PackageFraming.ChunksJoin` | Net/DataHandle.h:178-187 | pieces are non-empty, at most 1000 bytes, as many as announced, and join to the data |
| `PackageFraming.CutFrames` | Net/DataHandle.h:178-187 | the loop over frame numbers cuts those pieces |
| `PackageFraming.FramesCarryData` | Net/DataHandle.h:188-197 | a package's payloads join to its bytes, also when it is empty |
| `PackageFraming.FramesAnnounce` | Net/DataHandle.h:178-228 | a package becomes one frame per 1000 bytes begun, each with its piece of the data and a header that gives the total, its number, the lengths, and the package's verify length, protocols and time stamp |
| `PackageFraming.BuildFrames` | Net/DataHandle.h:174-197 | the loop over one package's frames |
| `PackageFraming.PackLoop` | Net/DataHandle.h:152-203 | the loop over the packages stops at the first that fails the capacity check or at a failing frame |
| `PackageFraming.OnePass` | Net/DataHandle.h:150-204 | one pass from the summation to the return or the jump back |
| `PackageFraming.Packaging` | Net/DataHandle.h:143-207 | the whole call with its jump back as a loop, followed for any number of passes |
| `PackageFraming.SetMsgFrames` | Net/DataHandle.h:93-106 | joins the payloads, or throws exactly when they exceed the buffer |
| `PackageDelivery.HeaderSplitIff` | Net/DataHandle.h:275-349 | a header split goes through if and only if it is not after 6, 7, 12 or 13 bytes and the next buffer takes the rest |
| `PackageDelivery.HeaderSplitSends` | Net/DataHandle.h:333-348 | it appends its frame to the stream and leaves the offset behind by the header tail |
| `PackageDelivery.LagStep` | Net/DataHandle.h:236-251 | a frame behind a lagging offset fails, or ends the valid prefix too early by the same lag |
| `PackageDelivery.FirstMisfit` | Net/DataHandle.h:252-349 | what the first frame that does not fit, and the frames behind it, leave in the buffers |
| `PackageDelivery.StreamExact` | Net/DataHandle.h:188-197 | the buffers carry exactly the stream of the frames if and only if all fit, or all but the last do and the last splits its header where that works |
| `PackageDelivery.ShortParse` | Net/DataHandle.h:24-43 | a receiver of a stream with up to 24 bytes missing does not get the frames |
| `PackageDelivery.EmptyBuffersAddNothing` | Net/DataHandle.h:150-163 | any number of added buffers leaves the total capacity as it was |
| `PackageDelivery.RetryFails` | Net/DataHandle.h:157-163 | after any number of retries the next pass fails like the first |
| `PackageDelivery.ReturnsIff` | Net/DataHandle.h:143-207 | the call returns if and only if the queue is empty or the first package passes the capacity check, and then after one pass |
| `PackageDelivery.FinishExact` | Net/DataHandle.h:157-207 | what is in the buffers when the call returns, whether it stopped at the check or not |
| `PackageDelivery.FramingRoundTrip` | Net/DataHandle.h:143-207 | the receiver parses exactly the frames of the packages handed over if and only if the first package passes and the frames fit, splitting no header but perhaps the last; and each package's payloads join to its bytes |
| `PackageDelivery.ReceiverSees` | Net/DataHandle.h:178-228 | when the frames arrive, frame k of package i is behind the frames of the packages before it, with its piece of the data and the header that announces it |
| `PackageDelivery.AdmittedExact` | Net/DataHandle.h:152-168 | the call takes packages up to the first for which all data so far and one header per package exceed the capacity |
| `PackageExamples.RetriedForEver` | Net/DataHandle.h:157-163 | 1001 bytes and one buffer of 1024: no number of passes is enough |
| `PackageExamples.LastSplitArrives` | Net/DataHandle.h:275-349 | two empty packages over buffers of 25 and 100 bytes arrive, the second with its header split |
| `PackageExamples.SplitLosesBytes` | Net/DataHandle.h:333-348 | with a third one the call reports success and 23 bytes are missing |
| `PackageExamples.LastBufferFilled` | Net/DataHandle.h:245-248 | a frame that exactly fills the last buffer reads past the buffer list |
| `PackageExamples.CheckAdmitsTooMuch` | Net/DataHandle.h:157-157 | 1001 bytes pass the check for a buffer of 1030, where their two frames do not fit |

## Left out

- Rendezvous: SEM_UNDO, the removal of the IPC objects after the last round, sleeps and prints; rounds are unbounded instead.
- StaticAllocator.XStaticAlloc.Init: an area shorter than its 24-byte header or with more than 65535 slots, which the code writes out of bounds or truncates, and an identifier in front of an image this allocator did not leave.
- StaticAllocator.XStaticAlloc.Alloc: a negative length, which the code accepts and then clears memory far outside the area; and for length zero only the refinement, no theorem: the code hands out an address that another block then shares.
- StaticAllocator.XStaticAlloc.Refresh: loading an image with a flag bit beyond the record array or with overlapping records; the code reads past the array or stores a negative length.
- AreaImage.SetRecordEffect: the padding bytes of a record are left as they were; the compiler may copy them.
- AreaRecovery.RunPartition: runs without a refresh, because it can lose free ranges (AreaRecovery.LoadFinds says exactly which); AreaRecovery.RunSafe covers runs with it.
- AreaRecovery.RunSafe: runs in which every successful Alloc has a slot left and no clash; AreaBook.AllocSoundIff and AreaRecovery.AllocRecoverableIff show that these conditions are exact.
- PagedMemory.MemMgr.Free: a wrong unit count or an address inside a unit; the code then writes outside its flags. Page links are a sequence, and the copy and assignment operators are not modelled.
- RepeatTimers.FirstExpiration: passes, not milliseconds, because when the clock signals is outside the program; the counter and state fields are taken as zero when a timer is added, because the constructor does not set them (Thread/Timer.h:20); stopping the manager is not modelled beyond the extra wake-up it posts.
- TaskBarrier.BarrierExact: workers are registered before the first call; deregistration while the barrier runs is not modelled.
- SessionBalance.RangesPartition: heartbeat timers, the kick thread, socket calls and the start flag; the worker count is any number from one.
- RefPointers.RegistryIsExact: loop mode, `Release`, `MoveFrom` and `CloneFrom`, which the source marks unfinished; a copy of a null RefPtr, whose mode flag the source leaves unset, is taken as non-loop.
- PackageDelivery.FramingRoundTrip: encryption and compression are taken as already applied; frame numbers of a package with more than 255 frames wrap in the header, as in the code; an access outside a buffer or the buffer list counts as a failure.
- PackageFraming.Packaging: a loop that need not end is followed for a given number of passes; PackageDelivery.ReturnsIff quantifies over that number.
- PackageFraming.SetMsgFrames: the call without a receive buffer, which returns 0.
- Thread objects whose fields change under interleaving (timers, barrier, balancer) are state machines on values, not classes: a class method cannot express a step of another thread between two of its statements.
- Database wrappers, sockets, epoll, kqueue and IOCP code, Windows variants, the millisecond timer manager, object and thread pools, the pattern directory, date arithmetic, and the operating-system wrappers would add only easy members or rest on foreign calls.
