# Verified models of the Linux experiments

This project models the parts of the repository that run as state machines or in-place loops, and
proves what they guarantee over every run. Nothing is executed: `dafny verify dfyconfig.toml` checks
the whole project.

| module | what it models |
|---|---|
| `SemaphoreCounter` | the semaphore-guarded counter of `exp3/exp3.2.c` and `exp1/exp1.4.c`, for any number of threads and thresholds |
| `LockedPipe` | the locked pipe of `exp1/exp1.5.c`, for any number of children and any frame length |
| `RamDisk` | the request loop of `exp4/exp_4_2_original.c`, with its 32-bit arithmetic |
| `LazyMapping` | the shared mapping of `exp2/exp2.4/map_driver.c`, for any page size and page count |
| `Myfs` | the name tree of `course_design/myfs_kernel.c` |
| `MyfsFifo` | the queue shared by that file system's files |
| `ProcMessage` | the /proc message of `exp3/exp3.1.c` |
| `StringList` | the linked list of `exp2/exp2.3.cpp` |
| `Counting` | weighted sums used by the two protocols |
| `Common` | the option type and a fact on sequences that several models share |

The two protocols are interleaved step machines. A schedule is any sequence of actors; `After` gives
the state it leads to, or nothing when it names an actor that is blocked. Claims are about every
schedule, so no fairness is assumed. `sharedData++` is a load and a store, and a frame enters the pipe
one byte at a time, so mutual exclusion is what makes the results true. In both machines a measure
falls by exactly one at every step: it bounds every run, and it fixes the length of every complete one.

The other modules keep the source's form: classes and arrays updated by methods, each tied to a
function on values about which the properties are then proved.

Contracts assumed of code outside the repository:

- `__blk_end_request_cur` completes the current segment, advances the position by its length and says
  whether the request has more; a fetched request has at least one segment; the queue gets no arrivals
  during a run; a segment that passes the driver's check has an int size that is not negative and a
  buffer at least that long, as memcpy demands (`RamDisk.SegmentFits`: every segment below 2 GB with a
  buffer for all its sectors is such a one). Buffers may overlap one another.
- the kernel hands `mapdrv_mmap` a free, non-empty, page-aligned range, calls the fault handler with
  the page-aligned address, finds that handler through the area's vm_ops only, and checks read and write
  permission before either.
- `new_inode` gives an inode with link count 1; `simple_fill_super` leaves an empty root with count 2;
  `lookup_one_len` returns the dentry for (parent, name) or an error.
- `kfifo` is a bounded byte queue; a user copy that faults keeps the bytes it had moved.
- a `copy_from_user` that fails leaves the bytes it was asked to fill in any state and no others changed.
- a `copy_to_user` that faults has written every byte before the one it faults on.
- `fork`, `pipe`, `lockf`, `pthread_create` and `malloc` succeed. The pipe's room is a parameter: a write
  blocks while it is full, and `LockedPipe.RoomForOneFrame` says how much room the program needs (the program's frames
  are 50 bytes, and a Linux pipe holds at least 4096).

Where the code and its documentation disagree, or the code does less than its caller expects:

- `README.md:15` asks that the parent receive child 1's message first. The program fixes no such order:
  `LockedPipe.AnyOrderCanHappen` gives a complete run for every order of the children, and
  `LockedPipe.TwoChildren` says which order a run gives.
- a reader that stops at the first zero-length read misses a message when the previous one was empty:
  `ProcMessage.FaithfulIffInStep` says exactly when the passes follow the messages, and
  `ProcMessage.EmptyMessageHidesNext` is the failing case.
- `proc_read` copies the whole message without looking at the count it is given, so it can write past
  the end of the caller's buffer: `ProcMessage.CountRespectedIff` says exactly when it does not, and
  `ProcMessage.GreetingOverruns` is the failing case on the first read of the loaded module.
- `myfs_init` returns 0 when the mount has failed: `Myfs.MyfsInit`.
- a read or write on a myfs file whose user copy faults after the first byte and before the last moves
  bytes but reports only -EIO. `MyfsFifo.BalancedIffClean` says that bytes returned and pending are the
  bytes accepted, at every moment, exactly in histories without such a fault, a condition on the calls'
  sizes and faults; `MyfsFifo.PartialWriteUnreported` is the failing case.
- beyond 2^23 sectors the driver's byte offset wraps, so its bounds check passes some segments that lie
  past the end: `RamDisk.PastTheEndAccepted`; with 2^22 sectors or more the int size can be negative, and
  such a segment passes too: `RamDisk.NegativeSizeAccepted`. `RamDisk.BoundsCheckRightIff` says exactly
  when the check is right. The announced capacity is below 2^22 sectors and the block layer refuses requests past it, so such a
  position reaches the driver only from a caller that goes round that refusal.

## Model

| member | source | states |
|---|---|---|
| SemaphoreCounter.Reachable | exp3/exp3.2.c:9-56 | one invariant holds after every schedule: the semaphore's life follows main, its value plus the threads inside is 1, every worker's knowledge of the counter is right, and the counter is the sum of the stored increments |
| SemaphoreCounter.OneInside | exp3/exp3.2.c:11-22 | while one worker is between wait and post, no other is |
| SemaphoreCounter.StoreKeepsData | exp3/exp3.2.c:20-20 | a store writes the checked value plus one, loses no update and stays within the largest threshold |
| SemaphoreCounter.MainCountsDown | exp3/exp3.2.c:43-56 | each step of main takes the measure down by exactly one |
| SemaphoreCounter.WorkerCountsDown | exp3/exp3.2.c:10-24 | each step of a worker takes the measure down by exactly one |
| SemaphoreCounter.ScheduleLength | exp3/exp3.2.c:9-56 | steps taken plus steps left are 5 times the largest threshold plus 5 per worker plus 3, under every schedule |
| SemaphoreCounter.SomeoneCanMove | exp3/exp3.2.c:9-56 | no deadlock: until main has finished, some actor is enabled |
| SemaphoreCounter.EveryRunStops | exp3/exp3.2.c:9-56 | every schedule is bounded; it cannot be extended exactly when main has finished, and exactly then it has the full length |
| SemaphoreCounter.CanFinish | exp3/exp3.2.c:9-56 | from every reachable state the program can be run to its end |
| SemaphoreCounter.FinalValue | exp3/exp3.2.c:43-56 | whatever the interleaving, main prints the largest threshold, with all workers exited and the semaphore destroyed |
| SemaphoreCounter.SemaphoreLaw | exp3/exp3.2.c:11-39 | while the semaphore lives, its value plus the number of threads between wait and post is 1, so at most one is inside |
| SemaphoreCounter.DestroyedWhenIdle | exp3/exp3.2.c:49-53 | sem_destroy runs only when every worker has exited and the value is 1 |
| SemaphoreCounter.NoLostUpdate | exp3/exp3.2.c:12-37 | the counter is the sum of the increments stored by each worker, never exceeds the largest threshold, and no worker stores more than its own threshold |
| SemaphoreCounter.Exp32 | exp3/exp3.2.c:6-56 | exp3.2 prints 100 after exactly 513 steps; thread 2 made at most 5 increments and thread 1 at least 95 |
| SemaphoreCounter.Exp14 | exp1/exp1.4.c:6-56 | exp1.4 prints 5 after exactly 38 steps |
| SemaphoreCounter.SplitIsBounded | exp3/exp3.2.c:9-56 | two workers: a complete run splits the larger threshold between them, neither beyond its own |
| SemaphoreCounter.SplitCanHappen | exp3/exp3.2.c:9-56 | and every such split is that of some complete run |
| SemaphoreCounter.Exp32Splits | exp3/exp3.2.c:6-56 | for every b in 0..5 some run of exp3.2 ends with 100 - b increments by thread 1 and b by thread 2 |
| LockedPipe.Reachable | exp1/exp1.5.c:13-34 | one invariant holds after every schedule: lock and lock order, whole frames received, and the pipe's exact contents, within its room |
| LockedPipe.StreamIsFramed | exp1/exp1.5.c:13-34 | bytes read followed by bytes in the pipe are always whole frames in lock order, then a prefix of the lock holder's frame |
| LockedPipe.ReadTakesAFrame | exp1/exp1.5.c:29-33 | when the parent is at a read, the front of the pipe is the next locker's whole frame and the read is enabled |
| LockedPipe.ReadReturnsAFrame | exp1/exp1.5.c:29-34 | the read after the k-th wait does not block and returns the k-th locker's whole frame |
| LockedPipe.AllFramesReceived | exp1/exp1.5.c:13-35 | a finished run has received every child's frame exactly once, in lock order, and left the pipe empty and unlocked |
| LockedPipe.SomeoneCanMove | exp1/exp1.5.c:13-35 | with room for one frame in the pipe, no deadlock until the parent has finished |
| LockedPipe.ScheduleLength | exp1/exp1.5.c:13-35 | steps taken plus steps left are fixed by the number of children and the frame length |
| LockedPipe.EveryRunStops | exp1/exp1.5.c:13-35 | every schedule is bounded, whatever the room; it has finished exactly when it has the full length; with room for one frame, one that cannot go on has finished |
| LockedPipe.CanFinish | exp1/exp1.5.c:13-35 | with room for one frame, every reachable state can be run to the end, with the lock order so far kept |
| LockedPipe.AnyOrderCanHappen | exp1/exp1.5.c:13-34 | with room for one frame, for every order of the children there is a complete run that receives the frames in that order |
| LockedPipe.TooSmallNeverReads | exp1/exp1.5.c:13-34 | with less room than one frame, no wait ever returns and nothing is received, on any schedule |
| LockedPipe.RoomForOneFrame | exp1/exp1.5.c:13-35 | every run that cannot go on has finished if and only if one frame fits into the pipe, and some run finishes if and only if it does |
| LockedPipe.DeadlockState | exp1/exp1.5.c:13-34 | where every run ends with less room: the lock holder has filled the pipe with the start of its frame, all others wait for the lock, the parent in its first wait |
| LockedPipe.TwoChildren | exp1/exp1.5.c:13-34 | the parent receives child 1 before child 2 exactly when child 1 took the lock first |
| LockedPipe.ChildTwoFirst | exp1/exp1.5.c:13-34 | there is a run of the program in which child 2's message is received first |
| RamDisk.OffsetExact | exp4/exp_4_2_original.c:39-41 | the 32-bit byte offset is exact if and only if the position is below 2^23 |
| RamDisk.SizeExact | exp4/exp_4_2_original.c:38-42 | the int size is exact if and only if the segment has fewer than 2^22 sectors |
| RamDisk.DiskSizeExact | exp4/exp_4_2_original.c:107-107 | the int disk size is exact if and only if diskmb is in -2048..2047 |
| RamDisk.BoundsCheckExact | exp4/exp_4_2_original.c:38-48 | for diskmb in 1..2047 and exact offset and size, the check fires exactly when the segment passes the announced capacity, and what passes lies inside the disk |
| RamDisk.BoundsCheckRightIff | exp4/exp_4_2_original.c:38-48 | for every position and length, the check decides rightly if and only if offset and size are exact or the segment folded into 2^23 sectors is past the end too |
| RamDisk.PastTheEndAccepted | exp4/exp_4_2_original.c:39-48 | the failing family: 2^23 sectors beyond a valid segment the offset is the same, so the check accepts a segment past the end |
| RamDisk.Driver.constructor | exp4/exp_4_2_original.c:105-113 | the disk has exactly the computed number of bytes |
| RamDisk.Driver.FetchRequest | exp4/exp_4_2_original.c:36-36 | takes the head of the queue; what is pending does not change |
| RamDisk.SegmentFits | exp4/exp_4_2_original.c:42-57 | every segment below 2 GB with a buffer for all its sectors can be served; the int size is negative exactly when the length modulo 4 GB is 2 GB or more |
| RamDisk.NegativeSizeAccepted | exp4/exp_4_2_original.c:42-57 | the second failing family: a length that is 2 GB or more modulo 4 GB, at any position that folds onto the device, passes the check although it is past the end, and hands memcpy a negative size |
| RamDisk.Driver.Transfer | exp4/exp_4_2_original.c:38-58 | for any position and any length, the loop body copies buffer to disk for a write and disk to buffer for a read, over exactly the computed range, or does nothing when the check fires, provided memcpy's own demands hold of a segment that passes |
| RamDisk.Driver.ServeNext | exp4/exp_4_2_original.c:38-58 | the segment served is the next of all, and extends the fold by one |
| RamDisk.Driver.MyRequest | exp4/exp_4_2_original.c:26-65 | the loop terminates, empties the queue, and leaves disk and buffers as the fold that serves every segment of every request once, in order |
| RamDisk.Driver.NextSegment | exp4/exp_4_2_original.c:59-62 | completing the segment, and fetching when the request has no more, leaves exactly the rest pending and takes the loop's measure down |
| RamDisk.Copy | exp4/exp_4_2_original.c:53-57 | the in-place copy replaces exactly the target range |
| RamDisk.DiskHolds | exp4/exp_4_2_original.c:36-63 | after any queue, at any positions, each disk byte holds what the last accepted write covering it had in its buffer when served, or its original value |
| RamDisk.WholeSectors | exp4/exp_4_2_original.c:38-48 | where offset and size are exact, a segment of a queue passes the check exactly when it lies within the capacity, and writes a byte exactly when its sector range contains the byte's sector |
| RamDisk.BufferHolds | exp4/exp_4_2_original.c:36-63 | after any queue, at any positions, each buffer byte holds what the disk held when the last accepted read filled it, or its original value |
| RamDisk.ReadBack | exp4/exp_4_2_original.c:50-58 | what the last write of a disk byte had in its buffer is what the last reader of that byte ends with in its own |
| RamDisk.RejectedSkipped | exp4/exp_4_2_original.c:44-48 | a segment that fails the check changes neither the disk nor any buffer |
| RamDisk.SectorsStep | exp4/exp_4_2_original.c:59-62 | the sectors before a segment are those of all earlier segments of its request |
| RamDisk.OpsOfAt | exp4/exp_4_2_original.c:37-62 | the k-th segment served for a request has the request's direction, its own k-th length and buffer, and starts right behind the k segments before it |
| RamDisk.OpsOfQueueAt | exp4/exp_4_2_original.c:36-63 | segment j of request i is served after exactly the segments of the earlier requests and the j before it |
| RamDisk.Locate | exp4/exp_4_2_original.c:36-63 | nothing is served that is not a segment of a request of the queue |
| RamDisk.PlaceOrders | exp4/exp_4_2_original.c:36-63 | segments are served by request and then by their place in it |
| RamDisk.DiskAfterQueue | exp4/exp_4_2_original.c:26-65 | in the fields of the requests: after a queue a disk byte holds what the last write segment covering it had in its buffer when its turn came |
| RamDisk.DiskUntouched | exp4/exp_4_2_original.c:26-65 | a disk byte that no write segment of the queue covers keeps its value |
| RamDisk.BufferAfterQueue | exp4/exp_4_2_original.c:26-65 | after a queue a buffer byte holds what the disk held at the matching place when the last read segment that filled it was served |
| RamDisk.BufferUntouched | exp4/exp_4_2_original.c:26-65 | a buffer byte that no read segment of the queue fills keeps its value |
| LazyMapping.MapdrvMmap | exp2/exp2.4/map_driver.c:91-121 | which areas are accepted and which error each refusal gets; the operations are set exactly on acceptance, the lock flag from the third test on, and nothing else of the area changes |
| LazyMapping.HandleFault | exp2/exp2.4/map_driver.c:142-176 | sets the page or leaves the fault alone and reports SIGBUS |
| LazyMapping.MapFaultPage | exp2/exp2.4/map_driver.c:142-176 | a fault in the k-th page behind vm_start gets the area's k-th frame; beyond the area, or without one, SIGBUS |
| LazyMapping.FaultFindsPage | exp2/exp2.4/map_driver.c:148-172 | a fault on any page of an accepted mapping gets the frame of the matching page of the area |
| LazyMapping.ResolveInv | exp2/exp2.4/map_driver.c:142-176 | an access fails only for lack of permission, and otherwise reaches the right frame, filling the entry if needed |
| LazyMapping.MmapRefines | exp2/exp2.4/map_driver.c:91-121 | mapping keeps the page tables right and agrees with the direct system |
| LazyMapping.MunmapRefines | exp2/exp2.4/map_driver.c:136-139 | unmapping drops the mapping's entries with it, so no stale entry survives |
| LazyMapping.PrefaultRefines | exp2/exp2.4/map_driver.c:142-176 | a fault taken ahead of any access changes nothing but the entry |
| LazyMapping.LoadRefines | exp2/exp2.4/map_driver.c:142-176 | a load returns the area's byte at the same offset |
| LazyMapping.StoreRefines | exp2/exp2.4/map_driver.c:142-176 | a store changes exactly the area's byte at the same offset |
| LazyMapping.LazyEqualsDirect | exp2/exp2.4/map_driver.c:91-176 | over every history of mmap, munmap, fault, load and store by any processes, results and final area equal those of direct access |
| LazyMapping.NeverSigbus | exp2/exp2.4/map_driver.c:156-164 | no access of any history gets SIGBUS |
| LazyMapping.StoreThenLoad | exp2/exp2.4/map_driver.c:142-176 | what one process stores, any process loads at the same offset |
| LazyMapping.MmapEffect | exp2/exp2.4/map_driver.c:91-121 | an mmap succeeds exactly on a free range that fits, is shared if writable and starts at offset zero; it adds exactly its own pages, driven by the driver's operations |
| LazyMapping.MunmapEffect | exp2/exp2.4/map_driver.c:136-139 | an munmap removes exactly the mapping around its address and that mapping's entries |
| LazyMapping.LoadEffect | exp2/exp2.4/map_driver.c:142-176 | a load fails only without read permission, changes nothing, and gives the area's byte at its offset |
| LazyMapping.StoreEffect | exp2/exp2.4/map_driver.c:142-176 | a store fails only without write permission, and changes exactly the area's byte at its offset |
| LazyMapping.PrefaultEffect | exp2/exp2.4/map_driver.c:142-176 | an early fault succeeds exactly with read permission and leaves area and mappings as they were |
| LazyMapping.LabelsDiffer | exp2/exp2.4/map_driver.c:61-66 | the texts written by init identify their pages |
| LazyMapping.ParseDecimal | exp2/exp2.4/map_driver.c:66-66 | the printed page number reads back as the number |
| LazyMapping.DecimalDigits | exp2/exp2.4/map_driver.c:66-66 | it consists of digits, without a leading zero |
| LazyMapping.LabelledReads | exp2/exp2.4/map_driver.c:61-67 | a labelled page starts with "test ", the page's number and a NUL, and keeps the rest |
| LazyMapping.DriverLabelsFit | exp2/exp2.4/map_driver.c:13-66 | with the driver's ten 4096-byte pages every text fits its page |
| LazyMapping.Module.MapdrvInit | exp2/exp2.4/map_driver.c:62-67 | the init loop labels every page of the area with its own text and writes nothing else |
| Myfs.FinalModeKeepsKind | course_design/myfs_kernel.c:108-121 | whatever type bits the caller passes, the inode is a directory exactly when a directory was asked for, and the permission bits are the caller's |
| Myfs.Module.constructor | course_design/myfs_kernel.c:125-132 | the mounted file system starts as an empty root |
| Myfs.Module.GetInode | course_design/myfs_kernel.c:28-78 | a new inode with one link, or two for a directory; nothing when allocation fails |
| Myfs.Module.Mknod | course_design/myfs_kernel.c:82-105 | -EPERM and no change when the name is taken or allocation fails, else one inode and one entry |
| Myfs.Module.Mkdir | course_design/myfs_kernel.c:108-115 | as Mknod, and the parent gains a link exactly on success |
| Myfs.Module.Creat | course_design/myfs_kernel.c:118-121 | as Mknod, for a regular file |
| Myfs.Module.CreatByName | course_design/myfs_kernel.c:239-280 | performs the creation under the requested name in the given parent, or in the root for a null one; -EFAULT, the lookup's own error and -EPERM each exactly in their case |
| Myfs.Module.CreatFile | course_design/myfs_kernel.c:283-310 | enters the requested name and returns the new inode with its data and operations exactly when the environment allows it and the name is free, else null and no change at all |
| Myfs.Module.CreatDir | course_design/myfs_kernel.c:313-320 | the same with the directory mode |
| Myfs.AddIsOneMore | course_design/myfs_kernel.c:82-121 | a success adds exactly one inode and one entry, raises only the parent's count and only for a directory, and changes no other inode's kind |
| Myfs.AddKeepsTree | course_design/myfs_kernel.c:53-121 | a success keeps the tree: one older parent directory per entry, no shared inodes, no orphans, directory links 2 plus subdirectories, file links 1 |
| Myfs.CreateKeepsTree | course_design/myfs_kernel.c:239-310 | every creation, successful or not, keeps the tree and all existing inodes |
| Myfs.PathTo | course_design/myfs_kernel.c:239-280 | every inode of a tree is reached by some path from the root |
| Myfs.PathUnique | course_design/myfs_kernel.c:239-280 | and by only one |
| Myfs.CreatedPath | course_design/myfs_kernel.c:239-310 | a creation the environment allows succeeds exactly when the parent's path followed by the name led nowhere; that path then leads to the new inode, and every other path leads where it did |
| Myfs.RunScript | course_design/myfs_kernel.c:239-320 | every result of a script stands for an inode of the final file system |
| Myfs.ScriptKeepsTree | course_design/myfs_kernel.c:239-320 | every script of creations, with any failures, leaves a tree, and every directory it returned is a directory in it |
| Myfs.FirstCreationWins | course_design/myfs_kernel.c:239-320 | a command succeeds exactly when it is the first one on its pair that the environment lets through; the entries are exactly the successes; behind each is an inode with the mode, data and operations its command asked for, whatever came later |
| Myfs.LogFollowsScript | course_design/myfs_kernel.c:239-320 | each command asks for its own name under the inode returned earlier, or under the root when that was null, and is let through exactly when mounted or given a parent, with lookup and allocation succeeding |
| Myfs.MyfsInit | course_design/myfs_kernel.c:325-369 | init leaves the result of its six creations; with a failed registration they run unmounted, with a failed mount they do not run; it returns the registration's value, so 0 with nothing mounted exactly when only the mount fails |
| Myfs.InitTree | course_design/myfs_kernel.c:325-369 | when nothing fails init leaves exactly First/one, First/two, Second/one and Second/two, with their modes, operations and link counts |
| Myfs.InitDirectory | course_design/myfs_kernel.c:355-365 | one directory of init and the two files created in whatever it returned |
| MyfsFifo.Queue.FileWrite | course_design/myfs_kernel.c:198-208 | enqueues what fits and returns that count, or what was copied before a fault and returns -EIO |
| MyfsFifo.Queue.FileRead | course_design/myfs_kernel.c:183-196 | dequeues from the front what is there up to the count and returns that count, or what was copied before a fault and -EIO |
| MyfsFifo.CountIsGrowth | course_design/myfs_kernel.c:183-208 | a returned count is exactly the growth or fall of the queue: the request, cut to the room or to what is pending |
| MyfsFifo.Conservation | course_design/myfs_kernel.c:183-208 | over every history on any files, bytes that left followed by bytes pending are the bytes that entered, with at most 64 pending |
| MyfsFifo.ToldIsTrue | course_design/myfs_kernel.c:183-208 | callers are told of exactly the bytes moved if and only if no call faults between its first and its last byte, a condition on sizes and faults alone; otherwise they are told of strictly fewer |
| MyfsFifo.LevelIsPending | course_design/myfs_kernel.c:183-208 | the number of pending bytes, computed from the calls' sizes and faults |
| MyfsFifo.BalancedIffClean | course_design/myfs_kernel.c:183-208 | bytes returned so far followed by bytes pending are the bytes accepted so far, at every moment of a history, if and only if no call of it faults part way |
| MyfsFifo.ReturnedThenPending | course_design/myfs_kernel.c:183-208 | so in histories without such faults it holds at the end |
| MyfsFifo.CountsAreLengths | course_design/myfs_kernel.c:183-208 | over every history the counts returned by writes and by reads add up to the bytes accepted and the bytes returned |
| MyfsFifo.CountsReconcileIffClean | course_design/myfs_kernel.c:183-208 | at every moment the counts of the writes less those of the reads are the number pending, if and only if no call faults part way |
| MyfsFifo.PartialWriteUnreported | course_design/myfs_kernel.c:198-208 | a write that faults after k bytes leaves them in the queue unreported, and a read through any file returns bytes no writer was told were accepted |
| MyfsFifo.WriteThenRead | course_design/myfs_kernel.c:183-208 | on an empty queue, a write through one file is read back through any other, as far as it was accepted |
| ProcMessage.ProcFile.constructor | exp3/exp3.1.c:6-40 | the buffer starts with the greeting and ends in NUL, with the flag clear |
| ProcMessage.ProcFile.ProcWrite | exp3/exp3.1.c:15-35 | -EINVAL and no change above 255 bytes, -EFAULT on a failed copy, else the bytes and a NUL stored, the rest kept and the length returned; the last byte stays NUL in every case |
| ProcMessage.ProcFile.ProcRead | exp3/exp3.1.c:38-52 | turns the flag over; reports the end if it was set, else copies the whole message whatever the count, or the bytes before a fault with -EFAULT; the position advances by what was reported |
| ProcMessage.CStringStops | exp3/exp3.1.c:46-51 | with a NUL at k, strlen is defined, at most k, and its string is a NUL-free prefix |
| ProcMessage.Run | exp3/exp3.1.c:15-52 | on every run, failed copies included, the last byte of the buffer stays NUL |
| ProcMessage.ReadIsPrefix | exp3/exp3.1.c:38-52 | after every run a successful read returns at most 255 bytes, a NUL-free prefix of the buffer |
| ProcMessage.CountRespectedIff | exp3/exp3.1.c:38-52 | after every run a read writes no more than the count asked for if and only if the flag is set, the message is no longer, or the copy faults within the count; so with 255 or more it always does |
| ProcMessage.GreetingOverruns | exp3/exp3.1.c:38-52 | the first read of the loaded module writes the whole greeting for any smaller count, and up to the fault when it faults later than the count |
| ProcMessage.WriteReturns | exp3/exp3.1.c:15-35 | in every run a write returns its own length exactly when it is at most 255 bytes and its copy succeeds, and otherwise the error of its case |
| ProcMessage.FlagIsParity | exp3/exp3.1.c:38-52 | over every run each read turns the flag over, faulting reads included, and nothing else does |
| ProcMessage.ReadReturns | exp3/exp3.1.c:38-52 | in every run a read returns 0 after an odd number of reads from a clear flag, and otherwise the message's length, or -EFAULT if the copy faults within it |
| ProcMessage.LastTakenWrite | exp3/exp3.1.c:15-35 | the message is that of the last write that was told its own length, when all later writes were refused as too long |
| ProcMessage.OnePass | exp3/exp3.1.c:38-52 | a read-until-zero pass that starts with the flag clear returns the message once and leaves the flag set only if the message was empty; one that starts with it set returns nothing |
| ProcMessage.FaithfulIffInStep | exp3/exp3.1.c:15-52 | over every history of accepted writes and passes, all passes return the latest message if and only if no pass on a non-empty message follows an unmatched pass on an empty one |
| ProcMessage.NonEmptyFaithful | exp3/exp3.1.c:15-52 | over every history of accepted non-empty NUL-free messages and passes, every pass returns exactly the latest message and the flag ends clear |
| ProcMessage.EmptyMessageHidesNext | exp3/exp3.1.c:38-52 | after an empty message has been read, the pass over the next message returns nothing and the pass after that returns it |
| StringList.Before | exp2/exp2.3.cpp:22-24 | the index of the first sentinel |
| StringList.Build | exp2/exp2.3.cpp:16-30 | the list holds the strings before the sentinel in order, without cycles, with one unfilled node at the end |
| StringList.Print | exp2/exp2.3.cpp:32-36 | the print loop terminates and outputs every node's string but the unfilled one's |
| StringList.Echo | exp2/exp2.3.cpp:15-38 | the program outputs exactly the strings before the first sentinel, in order |

## Left out

- course_design/myfs_kernel_ubuntu.c and exp4/exp_4_2_ramdisk_driver.c: variants of modelled code.
- exp4/exp_4_2.c, exp4/exp4_2_evil.c, exp4/exp4_1_kernel.c, exp1/exp1.6.c, exp1/exp1_8.c: stubs, printing and registration.
- exp1/exp1.1.c, exp1/exp1.2.1.c, exp1/exp1.3.c, exp2/exp2.2.cpp and the user-space test programs: I/O demonstrations.
- `my_ioctl` in exp4/exp_4_2_original.c: made-up geometry; the error exits of `my_init` after the allocation: cleanup calls only.
- `myfs_file_open` and `myfs_file_release`: time stamps, a counter in unzeroed memory and a credential test.
- dentry reference counts, inode locks, mounting, page reference counts, printing and sleeping: foreign calls.
- VMA splitting, changed protections, fork of mappings, and a null vmalloc_area in the running system: outside the driver's promise.
- RamDisk.Driver.MyRequest: requests are values, so that updating the request in place is not modelled; nothing is said of a segment that passes the check with a negative int size, on which memcpy has no meaning.
- StringList.Build: input without the sentinel, on which the loop never ends.
