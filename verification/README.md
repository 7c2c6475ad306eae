# Nachos in Dafny

A model of the hard parts of the Nachos teaching operating system, with proofs of what they
promise. Everything is proved for all inputs, all interleavings and all runs; sizes that Nachos
fixes in a header file are parameters where the code does not depend on their value.

* **File system.** A disk is an array of sectors. The free map and the directory are files on
  that disk, in sectors the free map itself describes. The invariant is stated over the bytes
  on the disk; formatting establishes it and creating, removing and writing files keep it.
  To its users it is a map from names to bytes, which copying a file in and printing one show.
  (`Layout`, `Bytes`, `Bitmaps`, `Volume`, `Files`, `PersistentBitmaps`, `Directories`,
  `FileSystems`, `FileStore`)
* **Threads and synchronization.** Semaphores, the scheduler and thread life cycle are one
  transition system over any number of threads; locks, condition variables, synchronized
  lists, the synchronous disk and the post office are programs run on it. (`Kernel`, `Monitor`,
  `SynchList`, `Requests`, `SynchDisk`, `PostOffice`, `Outbox`, `Network`)
* **Interrupts and the disk's timing.** Simulated time, delivery of hardware interrupts, and
  the latency of disk requests. (`Interrupts`, `DiskTiming`)
* **The MIPS machine.** Address translation, memory in the guest's byte order, every
  instruction, delayed loads, exceptions, and multiplication. (`Words`, `Memory`, `Multiply`,
  `Mips`, `InstructionSet`, `Cpu`, `Unaligned`, `Machines`)
* **Lists and hash tables.** The pointer structure of lists, and the table of lists that grows.
  (`Lists`, `HashTables`)

`dafny verify dfyconfig.toml` verifies the project.

## How the parts fit

Code that mutates objects is a class whose methods are proved against functions on values; the
properties are lemmas about those functions. `Files.OpenFile.WriteAt` is proved to splice a
byte sequence, `FileSystems` reasons about spliced files only. `Machines.Machine.OneInstruction`
updates registers, memory and page table in place and is proved to do what `Cpu.Attempt` says;
the theorems about delayed loads and unaligned words are about `Cpu`. The code of the machine
works with shifts and masks, and so do the methods; the functions they are proved against are
plain arithmetic. `Words` defines the operations on bits, one bit at a time, and proves what each
mask and shift amounts to. `InstructionSet` says what those functions compute, in terms of ints,
single bits, bytes of memory and each other. `Interrupts.Interrupt` is proved to move along a run
of the events of simulated time, so the laws proved of every run hold of it.

Code that blocks cannot be a sequential method: a thread that calls P may return after any
number of steps of other threads. There the model is a transition system. A step is a stretch of
code that runs with interrupts off, which is where the machine allows no switch
(code/machine/interrupt.h:17-21). Each layer's state contains the state of the layer below, each
of its events is one or two events of that layer, and each layer's invariant is proved kept by
every event, so what is proved of a lock holds under the lists and disks built from it.

## Model

| member | source | states |
|---|---|---|
| `Bitmaps.Bitmap.constructor` | code/lib/bitmap.cc:21-36 | a new map of n bits has every bit clear |
| `Bitmaps.Bitmap.Mark` | code/lib/bitmap.cc:55-63 | setting a bit of a 32-bit word sets that bit of the map and no other |
| `Bitmaps.Bitmap.Clear` | code/lib/bitmap.cc:72-80 | clearing a bit clears that bit and no other |
| `Bitmaps.Bitmap.Test` | code/lib/bitmap.cc:89-99 | the word test answers whether the bit of the map is set |
| `Bitmaps.Bitmap.FindAndSet` | code/lib/bitmap.cc:110-120 | finds the lowest clear bit and sets it; -1 and no change when none is clear |
| `Bitmaps.Bitmap.NumClear` | code/lib/bitmap.cc:128-139 | returns the number of clear bits |
| `Bitmaps.BitsUpdate` | code/lib/bitmap.cc:60-77 | storing a word with one bit changed changes exactly one bit of the map, whichever word it is in |
| `Bitmaps.FirstClear` | code/lib/bitmap.cc:110-120 | the lowest clear index, with every lower bit set, or -1 exactly when all are set |
| `Bitmaps.NoneClear` | code/lib/bitmap.cc:110-139 | NumClear is zero exactly when FindAndSet fails |
| `Bitmaps.TakeFinds` | code/filesys/filehdr.cc:48-56 | n calls of FindAndSet on a map with at least n clear bits find n distinct clear bits, set exactly those, and lower the count by n |
| `Bytes.IntRoundTrip` | code/filesys/filehdr.cc:83-100 | an int stored as four bytes is read back unchanged |
| `Bytes.WordRoundTrip` | code/filesys/pbitmap.cc:62-78 | a map word stored as four bytes is read back unchanged |
| `Bytes.FlattenRecord` | code/filesys/directory.cc:62-79 | in an array of fixed-size records laid end to end, the i-th slice is the i-th record |
| `Volume.HeaderRoundTrip` | code/filesys/filehdr.cc:83-100 | a header written to a sector is fetched unchanged, including the unused end of its table |
| `Volume.FileFrame` | code/filesys/openfile.cc:115-183 | a file none of whose sectors changed has the same bytes |
| `Volume.ReadAfterWrite` | code/filesys/openfile.cc:115-183 | after a write, a read of any range returns the written byte where the write covered it and the earlier byte elsewhere |
| `Volume.WriteTouchesOneFile` | code/filesys/openfile.cc:144-183 | a write leaves the bytes of every file with disjoint sectors, and every header outside the file, unchanged |
| `Layout.SectorsAreLeast` | code/filesys/filehdr.cc:47 | rounding up gives the least number of sectors: k are enough exactly when the bytes fit in k |
| `Layout.SectorsForMax` | code/filesys/filehdr.h:20-21 | MaxFileSize is the largest size whose sectors a header has room for |
| `Files.FileHeader.Allocate` | code/filesys/filehdr.cc:43-58 | succeeds exactly when the clear sectors hold the bytes; then the header names the least number of sectors that do, distinct, the lowest clear ones in order, and exactly those become set; on failure the map is unchanged |
| `Files.FileHeader.Deallocate` | code/filesys/filehdr.cc:67-74 | clears exactly the header's sectors; its assertion that each is marked holds at every turn |
| `Files.FileHeader.FetchFrom` | code/filesys/filehdr.cc:83-87 | the header in memory is the one the sector encodes |
| `Files.FileHeader.WriteBack` | code/filesys/filehdr.cc:96-100 | the sector encodes the header in memory, and no other sector changes |
| `Files.FileHeader.ByteToSector` | code/filesys/filehdr.cc:112-116 | the result is the sector, among the file's own, that holds the byte at the offset: its bytes are the file's from the start of that block on |
| `Files.OpenFile.constructor` | code/filesys/openfile.cc:29-34 | the handle holds the header found in the sector, positioned at 0 |
| `Files.OpenFile.ReadAt` | code/filesys/openfile.cc:115-142 | for every position, length and alignment, copies exactly the range of the file's bytes asked for, as far as the file goes, and nothing else into the buffer; it moves something exactly if some bytes are asked for and the position is before the end, and fewer than asked for only up to the end |
| `Files.OpenFile.WriteAt` | code/filesys/openfile.cc:144-183 | for every position, length and alignment, the file's bytes become the old ones with the range spliced in, as far as the file goes, and no sector outside the file changes; it moves something exactly if some bytes are asked for and the position is before the end, and fewer than asked for only up to the end |
| `Files.OpenFile.LoadPartial` | code/filesys/openfile.cc:164-172 | after reading in partly modified sectors the buffer holds the file's bytes before and after the range to be written |
| `Files.OpenFile.StoreSectors` | code/filesys/openfile.cc:177-180 | writes the buffer back sector by sector and changes nothing else |
| `Files.OpenFile.Seek` | code/filesys/openfile.cc:54-58 | sets the position |
| `Files.OpenFile.Read` | code/filesys/openfile.cc:73-79 | returns the bytes from the position, all that are asked for or up to the end, and advances it by their number |
| `Files.OpenFile.Write` | code/filesys/openfile.cc:81-87 | splices at the position, all that is given or up to the end, and advances it by the number written |
| `Files.LoadedBytes` | code/filesys/openfile.cc:128-139 | sectors read one after another give the file's bytes at the offset within the first |
| `Files.StoredBytes` | code/filesys/openfile.cc:174-180 | storing a buffer that holds the spliced bytes over its sectors splices the file and nothing more |
| `Files.TakenIsGood` | code/filesys/filehdr.cc:43-58 | a header filled by FindAndSet has a legal shape and distinct sectors |
| `PersistentBitmaps.WordsRoundTrip` | code/filesys/pbitmap.cc:62-78 | the words of a map survive being written to a file and fetched |
| `PersistentBitmaps.PersistentBitmap.FromFile` | code/filesys/pbitmap.cc:39-45 | for a file of any size, the words are the file's bytes as far as they go and zero behind them; a file of the map's size gives the bits it holds |
| `PersistentBitmaps.PersistentBitmap.FetchFrom` | code/filesys/pbitmap.cc:62-66 | for a file of any size, the words are the file's bytes as far as they go and the old words behind them; a file of the map's size gives the bits it holds |
| `PersistentBitmaps.PersistentBitmap.WriteBack` | code/filesys/pbitmap.cc:74-78 | writes as much of the map as the file has room for, and changes only the file's sectors; a file of the map's size then holds the map's bits |
| `Directories.StrnEqualIsKey` | code/filesys/directory.cc:93 | strncmp over 9 characters holds exactly for names that agree up to the first NUL or 9 characters |
| `Directories.PaddedKey` | code/filesys/directory.cc:137 | a name stored by strncpy of 9 characters compares equal to the name itself, whatever follows it |
| `Directories.TableRoundTrip` | code/filesys/directory.cc:62-79 | a table of 20-byte entries survives being written to a file and fetched |
| `Directories.Directory.constructor` | code/filesys/directory.cc:37-43 | a new directory has no entry in use |
| `Directories.Directory.FetchFrom` | code/filesys/directory.cc:62-66 | for a file of any size, the table is decoded from the file's bytes as far as they go and the old table's behind them; a file of the table's size gives the table it encodes |
| `Directories.Directory.WriteBack` | code/filesys/directory.cc:75-79 | writes as much of the table's encoding as the file has room for, and changes only the file's sectors; a file of the table's size then holds the whole encoding |
| `Directories.Directory.FindIndex` | code/filesys/directory.cc:89-96 | the first entry in use whose name matches, or -1 when there is none |
| `Directories.Directory.Find` | code/filesys/directory.cc:107-115 | the header sector of that entry, or -1 |
| `Directories.Directory.Add` | code/filesys/directory.cc:128-142 | succeeds exactly when the name is absent and an entry is free; then fills the first free entry and nothing else |
| `Directories.Directory.Remove` | code/filesys/directory.cc:152-161 | frees the entry found, and only it; fails without change when the name is absent |
| `FileSystems.AddFile` | code/filesys/filesys.cc:191-206 | giving clear sectors to a new file keeps one owner per sector and the map exact |
| `FileSystems.DropFile` | code/filesys/filesys.cc:271-281 | taking back a file's sectors keeps one owner per sector and the map exact |
| `FileSystems.CreatedKeepsInv` | code/filesys/filesys.cc:174-214 | what Create does to the disk keeps the invariant and adds exactly the new file to the files on disk |
| `FileSystems.RemovedKeepsInv` | code/filesys/filesys.cc:256-286 | what Remove does keeps the invariant and takes away exactly that file |
| `FileSystems.LiveWriteKeepsAll` | code/filesys/openfile.cc:144-183 | a write through a handle to a listed file keeps the invariant, the free map, the directory and every header |
| `FileSystems.NextKeepsInv` | code/filesys/filesys.cc:174-286 | each operation, successful or not, keeps the invariant |
| `FileSystems.RunKeepsInv` | code/filesys/filesys.cc:81-286 | so does every run of creations, removals and writes |
| `FileSystems.FreeMapIsExact` | code/filesys/filesys.cc:81-286 | a free-map bit is set exactly for sectors 0 and 1, the data of the map and the directory, and the header or data of a listed file; and no sector has two owners |
| `FileSystems.OthersUntouched` | code/filesys/filesys.cc:174-286 | an operation leaves every other file's header and bytes alone, so handles to it stay good |
| `FileSystems.HandleWrites` | code/filesys/openfile.cc:144-183 | a write through any good handle on a listed file is one of the write operations of a run |
| `FileSystems.HandleStaysGood` | code/filesys/filesys.cc:174-286 | over any run that does not remove its file a handle stays good, and without writes to the file so do the bytes seen through it |
| `FileSystems.CreateThenRemove` | code/filesys/filesys.cc:174-286 | a creation, any writes, and the removal of the new file leave the free map bit for bit, the files, and the directory as a map of names as they were |
| `FileSystems.FileIsMarked` | code/filesys/filehdr.cc:71 | every sector of a listed file is marked, which Deallocate asserts |
| `FileSystems.FirstFitIsClear` | code/filesys/filesys.cc:192-199 | the header sector and the data sectors that Create picks were all clear and are all different |
| `FileSystems.CreateCondition` | code/filesys/filesys.cc:192-199 | the two separate space tests of Create amount to 1 + ceil(size / SectorSize) clear sectors |
| `FileSystems.CanCreateIff` | code/filesys/filesys.cc:185-199 | Create succeeds exactly when the name is absent, an entry is free, and besides one sector for the header the clear sectors hold the bytes |
| `FileSystems.CreatedTakes` | code/filesys/filesys.cc:192-206 | a new file costs one sector and the least number that hold its bytes, none if it is empty |
| `FileSystems.RemovedFrees` | code/filesys/filesys.cc:271-281 | removing a file gives all of that back |
| `FileSystems.CreateWrites` | code/filesys/filesys.cc:203-206 | writing header, directory and map in that order has the effect of a creation, although the last two are files found through headers on the same disk |
| `FileSystems.RemoveWrites` | code/filesys/filesys.cc:276-281 | writing map, then directory has the effect of a removal |
| `FileSystems.FormatAllocates` | code/filesys/filesys.cc:94-101 | the formatting allocations give the two special files disjoint sectors, and the map has exactly those set |
| `FileSystems.FormatWrites` | code/filesys/filesys.cc:109-127 | the formatting writes leave a disk with an empty directory that satisfies the invariant |
| `FileSystems.RoomForBoth` | code/filesys/filesys.cc:100-101 | the two allocations asserted during formatting have room |
| `FileSystems.LayOut` | code/filesys/filesys.cc:94-101 | the two header sectors and the two files' data are marked and given out, both asserted allocations succeeding |
| `FileSystems.Format` | code/filesys/filesys.cc:83-134 | any disk becomes one that satisfies the invariant with an empty directory, the two files open on it |
| `FileSystems.FileSystem.constructor` | code/filesys/filesys.cc:81-143 | formatting any disk establishes the invariant with an empty directory, its two assertions holding; opening a formatted disk changes nothing |
| `FileSystems.FileSystem.Commit` | code/filesys/filesys.cc:203-206 | the three writes of a successful Create leave the new file on the disk and the invariant intact |
| `FileSystems.FileSystem.Create` | code/filesys/filesys.cc:174-214 | succeeds exactly when the 9-character name is absent, an entry is free and, besides one for the header, the clear sectors hold the bytes; takes the lowest clear sectors, the least number; leaves every sector unchanged on failure; either way it is a creation step of a run |
| `FileSystems.FileSystem.Open` | code/filesys/filesys.cc:226-240 | null exactly when the name is absent, otherwise a handle on that file's header |
| `FileSystems.FileSystem.Remove` | code/filesys/filesys.cc:256-286 | fails without change exactly when the name is absent, otherwise removes the file |
| `FileStore.CreateMeans` | code/filesys/filesys.cc:174-214 | to users, Create adds the name with as many bytes as asked for and changes no other name |
| `FileStore.RemoveMeans` | code/filesys/filesys.cc:256-286 | Remove takes the name away and changes no other |
| `FileStore.WriteMeans` | code/filesys/openfile.cc:144-183 | a write through a handle splices the bytes under its name and changes no other |
| `FileStore.ReadAll` | code/threads/main.cc:141-144 | reading piece by piece from the start until a read returns nothing gives the whole file |
| `FileStore.Print` | code/threads/main.cc:129-149 | Print shows exactly the bytes under the name, or reports that there is none |
| `FileStore.WriteAll` | code/threads/main.cc:111-114 | writing piece by piece is writing the whole at once |
| `FileStore.Copy` | code/threads/main.cc:81-120 | Copy succeeds exactly when the file can be created; then the new name has the bytes copied and every other name what it had |
| `Kernel.BootInv` | code/threads/kernel.cc:88-94 | the kernel starts, with one running thread, in a state that satisfies the invariant |
| `Kernel.StepDefined` | code/threads/scheduler.cc:56-150 | the invariant discharges every assertion that an event meets, such as that a thread made ready is not already on the list |
| `Kernel.StepKeepsInv` | code/threads/synch.cc:75-117 | every event of every thread keeps the kernel invariant |
| `Kernel.ExactlyOnePlace` | code/threads/thread.cc:91-255 | in every reachable state a thread that has not finished is on the CPU, in one ready-list slot or in one semaphore queue slot, and in one of these only |
| `Kernel.NoLostWakeup` | code/threads/synch.cc:75-117 | a non-empty queue means the value is at most the number of woken threads yet to recheck; so a positive value with a sleeper means one of them is on its way |
| `Kernel.SemaphoreBalance` | code/threads/synch.cc:75-117 | over any run a semaphore's value is its initial value plus completed Vs minus completed Ps, and never negative |
| `Kernel.ReadyListIsFifo` | code/threads/scheduler.cc:56-84 | the thread at position k of the ready list gets the CPU at exactly the (k+1)-st later dispatch |
| `Kernel.SleepersWakeInOrder` | code/threads/synch.cc:75-117 | over any run the threads asleep on a semaphore are woken one by one, in the order they queued and before any that queued later |
| `Kernel.NextOnCpu` | code/threads/thread.cc:201-255 | a thread that yields, sleeps or finishes hands the CPU to the first ready thread at once, going to the end of the list if it yields; with nobody ready the CPU is idle; any other event leaves the CPU alone |
| `Kernel.NeverStuck` | code/threads/thread.cc:235-255 | in every reachable state the thread on the CPU can go on and a ready thread can be dispatched; an idle CPU with nobody ready means every thread sleeps on a semaphore of value zero |
| `Kernel.NothingToDestroyOnEntryToRun` | code/threads/scheduler.cc:103-116 | no deletion is outstanding when Run is entered, so its assertion holds |
| `Kernel.FinishedThreadIsDeleted` | code/threads/scheduler.cc:160-167 | the thread switched to is not the finished one and deletes it before anything else happens |
| `Kernel.DeletedOnce` | code/threads/thread.cc:171-181 | no thread is deleted twice, and none disappears without being deleted |
| `Monitor.StepKeepsInv` | code/threads/synch.cc:181-297 | every event of a lock and a condition, interleaved with anything else, keeps their invariant |
| `Monitor.MutualExclusion` | code/threads/synch.cc:181-203 | the lock's value plus the threads between completing P in Acquire and V in Release is exactly 1, so lockHolder is null or the only thread inside |
| `Monitor.InsideMeansHolder` | code/threads/synch.cc:198-203 | a thread in the critical section passes the assertion that it holds the lock |
| `Monitor.SignalIsKept` | code/threads/synch.cc:244-283 | a signal to a thread in Wait is kept, also when it lands between Wait's Release and its P |
| `Monitor.SignalledAtMostOnce` | code/threads/synch.cc:244-283 | a waiter's private semaphore is raised at most once, and nobody can reach it when Wait deletes it |
| `Monitor.BroadcastServesInOrder` | code/threads/synch.cc:292-297 | signals serve waiters in the order they began to wait, whatever is interleaved, until the queue is empty |
| `Monitor.ConditionIsFifo` | code/threads/synch.cc:244-283 | over any run those signalled and still waiting are, in order, those that called Wait: signals serve waiters in the order they began to wait |
| `Monitor.CanGoOn` | code/threads/synch.cc:181-283 | a thread with the CPU in Acquire, Wait or the critical section can always take its next step |
| `SynchList.StepKeepsInv` | code/threads/synchlist.cc:51-81 | every event of any number of producers and consumers keeps the list's invariant |
| `SynchList.FifoChannel` | code/threads/synchlist.cc:51-81 | on every interleaving the items removed, followed by those on the list, are those appended, in order |
| `SynchList.NoConsumerForgotten` | code/threads/synchlist.cc:51-81 | when the lock is free and a consumer still waits, the list is no longer than the number of signalled consumers yet to look |
| `SynchList.CanGoOn` | code/threads/synchlist.cc:51-81 | a thread with the CPU in Append or RemoveFront can take the next step; RemoveFront takes the first item if there is one and waits otherwise |
| `SynchList.CanGoOnFromP` | code/threads/synchlist.cc:51-81 | the same when it has just got the lock or been signalled; only an item already on the list stops Append |
| `Requests.StepKeepsInv` | code/filesys/synchdisk.cc:57-94 | every event of any number of threads that make requests to a device under a lock and wait for its interrupt keeps the protocol |
| `Requests.OneAtATime` | code/filesys/synchdisk.cc:57-94 | requests in progress plus the completion semaphore's value is the number, 0 or 1, of threads between making a request and finishing P; a thread back from P made the last request, and it has completed |
| `Requests.NeverBusy` | code/filesys/synchdisk.cc:57-82 | a thread that has got the lock finds no request in progress |
| `Requests.CanGoOn` | code/filesys/synchdisk.cc:57-94 | a thread with the CPU can make its request, call P, and release the lock in turn, and a pending interrupt can be delivered |
| `SynchDisk.StepKeepsInv` | code/filesys/synchdisk.cc:57-94 | every event of any number of threads keeps the request protocol and the contents of the disk |
| `SynchDisk.OneRequestAtATime` | code/filesys/synchdisk.cc:57-94 | the active flag plus the completion semaphore's value is the number, 0 or 1, of threads between issuing a request and finishing P; one interrupt is pending exactly while the disk is active; a thread returns only after its own request, the last made, has completed |
| `SynchDisk.ReadsReturnLatestWrite` | code/filesys/synchdisk.cc:57-82 | transfers answer the requests in lock order, and each read returns the latest write to that sector in that order |
| `SynchDisk.RequestNeverMeetsActiveDisk` | code/machine/disk.cc:113-151 | the assertion that no request is in progress never fails |
| `PostOffice.HeaderRoundTrip` | code/network/post.cc:300-329 | packet and mail headers survive encoding, whatever follows them |
| `PostOffice.Compose` | code/network/post.cc:300-318 | what Send makes of a message that passes its assertions is a packet from this machine to that one with the message's own header and data, which the receiving side accepts |
| `PostOffice.FrameParses` | code/network/post.cc:190-216 | a composed message survives framing, the wire and both decodings unaltered |
| `PostOffice.NextKeepsInv` | code/network/post.cc:190-254 | every action of senders, network, worker and receivers keeps the invariant |
| `PostOffice.DeliveryIsFaithful` | code/network/post.cc:97-137 | for each box the messages received are, in order, unaltered and unduplicated, a prefix of those the wire carried to it, and the wire carried a subsequence of those sent |
| `PostOffice.InboxMatchesSemaphore` | code/machine/network.cc:60-103 | messageAvailable plus a worker between P and Receive is one exactly when the inbox is full |
| `PostOffice.WorkerAssertionsHold` | code/network/post.cc:190-216 | the worker never receives from an empty inbox, and every packet it receives passes its assertions |
| `PostOffice.StagesMove` | code/network/post.cc:190-239 | a poll with the inbox empty moves the first message from the wire to it, and the worker takes that message in hand |
| `PostOffice.BoxesMove` | code/network/post.cc:207-239 | the worker puts the message in hand at the end of its box and no other, and a receiver gets the first message of its box |
| `PostOffice.CanGoOn` | code/network/post.cc:190-239 | the worker can take its next step whenever it has the CPU, a poll can always happen, and any box with mail can be emptied |
| `Outbox.StepKeepsInv` | code/network/post.cc:300-343 | every event of any number of sending threads keeps the send protocol |
| `Outbox.OnePacketInFlight` | code/network/post.cc:320-325 | at most one packet is between being sent and its interrupt, none when another is sent, and Send returns only after the interrupt for its own packet |
| `Outbox.WireIsSent` | code/machine/network.cc:158-182 | what reaches the socket is in order and unaltered a subsequence of the packets made of the arguments of Send |
| `Outbox.FlagNeverSet` | code/machine/network.cc:140-169 | the device's own test for a packet in flight never fails because its flag is never set: it is still false when a packet has just been sent |
| `Network.StepKeepsInv` | code/machine/network.cc:158-182 | every event of a sending and a receiving machine keeps this: what the network carried between them is what the sender put on its wire |
| `Network.MailArrives` | code/network/post.cc:190-329 | for each box, the messages received with the sender's address are, in order, the first of those the sender put on its wire for that machine and box |
| `Network.MailIsGenuine` | code/network/post.cc:190-329 | every such message was handed to Send on the sender by a call that named this machine and this box, with the same mail header and, up to its length, the same data |
| `Interrupts.ScheduleKeeps` | code/machine/interrupt.cc:256-266 | a new interrupt goes behind all that are due no later, so due times are in order and ties in scheduling order |
| `Interrupts.DeliverKeeps` | code/machine/interrupt.cc:314-319 | delivering the first pending interrupt keeps the order over everything ever scheduled, and its delay is below the bound of the mode |
| `Interrupts.DeliveryLaws` | code/machine/interrupt.cc:147-322 | over every run of scheduling, ticks, idle jumps and deliveries from the start of time: interrupts are delivered by due time with ties in scheduling order, each is one that was scheduled, less than SystemTick late and exactly on time in user mode or when idle |
| `Interrupts.StepKeepsInv` | code/machine/interrupt.cc:147-322 | every event of simulated time keeps the order of what is pending and has been delivered, and the bound on delay |
| `Interrupts.RunConserves` | code/machine/interrupt.cc:256-322 | over any run what is delivered together with what is still pending is, each exactly once, what was pending at first and what has been scheduled |
| `Interrupts.ClockLaws` | code/machine/interrupt.cc:147-160 | over every run totalTicks is idle plus system plus user ticks, the latter two the ticks that passed, and between ticks nothing pending is due |
| `Interrupts.FirstDecides` | code/machine/interrupt.cc:318-319 | when the first pending interrupt is not due none is, so between ticks all are strictly in the future |
| `Interrupts.TickKeeps` | code/machine/interrupt.cc:153-160 | after a tick of either size nothing is overdue by as much as the tick |
| `Interrupts.IdleKeeps` | code/machine/interrupt.cc:299-303 | jumping to the next interrupt makes it due exactly now |
| `Interrupts.DueAfterInsert` | code/machine/interrupt.cc:314-319 | scheduling from a handler adds nothing that is due, so the delivery loop ends |
| `Interrupts.Interrupt.Schedule` | code/machine/interrupt.cc:256-266 | inserts at the due time, as one event of a run |
| `Interrupts.Interrupt.Deliver` | code/machine/interrupt.cc:315-317 | delivers the first pending interrupt at the current time, schedules all its handler asks for, records whether the handler wants a context switch, and strictly lowers the number due |
| `Interrupts.Interrupt.FireAll` | code/machine/interrupt.cc:312-319 | delivers, at the current time, the first pending interrupt and then all that are due, each to its handler, and ends with nothing due |
| `Interrupts.Interrupt.CheckIfDue` | code/machine/interrupt.cc:280-322 | fires exactly when something is due or the clock may jump, starting with the first pending interrupt and going on until nothing is due; what it does is a run of events |
| `Interrupts.ServeAllAsks` | code/machine/interrupt.cc:312-322 | delivering all that is due ends with nothing due, at the same time, and wants a context switch exactly if one was wanted already or a handler called on the way asked for it |
| `Interrupts.Interrupt.OneTick` | code/machine/interrupt.cc:147-176 | a tick of the mode followed by a run of deliveries at that time, after which nothing is due; a context switch follows exactly if one was wanted already or a handler called in this tick asked for it |
| `Interrupts.Interrupt.Idle` | code/machine/interrupt.cc:207-227 | with something pending, a run in which time jumps to it and it fires exactly on time; otherwise nothing happens and the machine halts |
| `Interrupts.Interrupt.SetLevel` | code/machine/interrupt.cc:123-136 | interrupts going from off to on take a tick and the deliveries that are due, whose requests for a context switch it passes on; any other change takes no time, and turning them off needs nothing of the machine |
| `Interrupts.Interrupt.YieldOnReturn` | code/machine/interrupt.cc:189-194 | records the request for a context switch |
| `DiskTiming.SeekLaws` | code/machine/disk.cc:176-188 | a seek takes no time exactly within a track, SeekTime to a neighbouring track, the same either way, and along a sweep as much as its parts |
| `DiskTiming.TransferStartsOnTime` | code/machine/disk.cc:176-250 | an unbuffered transfer starts at the first moment after the seek at which the target sector begins to pass the head |
| `DiskTiming.LatencyIs` | code/machine/disk.cc:229-250 | a request takes one sector's time if the track buffer has it, and otherwise until its sector, from the first time it begins to pass the head after the seek, has been transferred |
| `DiskTiming.LatencyBounds` | code/machine/disk.cc:229-250 | latency lies between RotationTime and SeekTime * (NumTracks - 1) + RotationTime * (SectorsPerTrack + 1) - 1, and the track buffer never makes it longer |
| `DiskTiming.BufferedIffRead` | code/machine/disk.cc:236-245 | the track buffer serves no writes, and exactly the reads on the current track whose sector has passed the head completely since the buffer began to fill |
| `DiskTiming.ModuloDiff` | code/machine/disk.cc:199-206 | the least number of sectors by which the disk has to turn |
| `DiskTiming.Disk.UpdateLast` | code/machine/disk.cc:258-268 | a seek restarts the buffer at the sector boundary after it; otherwise the buffer goes on |
| `DiskTiming.Disk.Request` | code/machine/disk.cc:113-151 | the delay given to Schedule is the latency, which is positive; the buffer never starts after the request that set it completes |
| `DiskTiming.Disk.CallBack` | code/machine/disk.cc:158-163 | the disk is idle again |
| `Memory.StaysInPage` | code/machine/translate.cc:184-251 | a translated access of 1, 2 or 4 bytes lies in one page and in physical memory, so the final assertion holds |
| `Memory.TranslateFails` | code/machine/translate.cc:194-228 | an address error is raised exactly for a misaligned access or a page beyond the page table, a page fault exactly when the page table's entry is not valid or no valid TLB entry names the page |
| `Memory.TranslateMeans` | code/machine/translate.cc:230-248 | by the fields of the entry for the page: read-only exactly for a write to a read-only page, bus error exactly for a frame that does not exist, and otherwise the same offset in the entry's frame |
| `Memory.TouchedExactly` | code/machine/translate.cc:243-245 | a translation sets the use bit of that entry, its dirty bit exactly on writes, and nothing else |
| `Memory.TlbRefinesPageTable` | code/machine/translate.cc:207-228 | a TLB whose valid entries agree with the page table either page-faults or gives the page table's result or exception |
| `Memory.TlbFaultsIffMissing` | code/machine/translate.cc:217-228 | it page-faults on an aligned access exactly when no valid entry names the page |
| `Memory.SameTranslation` | code/machine/translate.cc:243-245 | use and dirty bits do not affect translation |
| `Memory.ReadsLittleEndian` | code/machine/translate.cc:39-63 | on a host of either byte order, words and shorts read through the shifts and masks of WordToHost and ShortToHost are little-endian |
| `Memory.WritesLittleEndian` | code/machine/translate.cc:65-69 | on a host of either byte order, what is stored through them is little-endian |
| `Memory.ByteRead` | code/machine/translate.cc:85-120 | a byte read is the virtual byte at the address, sign-extended |
| `Memory.ShortRead` | code/machine/translate.cc:85-120 | a short read is made of the two virtual bytes at its address, least significant first |
| `Memory.WordRead` | code/machine/translate.cc:85-120 | a word read is made of the four virtual bytes at its address, least significant first |
| `Memory.Written` | code/machine/translate.cc:135-167 | a write of one, two or four bytes changes exactly those virtual bytes, to the low bytes of the value, least significant first, if no page frame is mapped twice |
| `Words.AndLow` | code/machine/mipssim.cc:730-743 | a mask of the k lowest bits is the remainder by 2^k |
| `Words.AndBand` | code/machine/mipssim.cc:748-757 | a mask of j bits from bit k up selects those bits in place |
| `Words.OrHigh` | code/machine/mipssim.cc:269-292 | or-ing with a mask of the bits from k up sets exactly those |
| `Words.OrDisjoint` | code/machine/mipssim.cc:254 | or-ing words that share no bit position is adding them |
| `Words.SignsDiffer` | code/machine/mipssim.cc:159-160 | the sign bit of the exclusive or tells whether the signs differ |
| `Words.KeepLow` | code/machine/mipssim.cc:348-359 | low bits kept by a mask, under a word shifted left, as arithmetic |
| `Words.KeepHigh` | code/machine/mipssim.cc:401-412 | high bits kept by a mask, over a word shifted right with its copied sign bits masked off, as arithmetic |
| `Words.LogicBits` | code/machine/mipssim.cc:446-456 | the logical operations act on each bit |
| `Words.ShiftBits` | code/machine/mipssim.cc:470-530 | a left shift moves every bit up and brings in zeros, a right shift of an int moves every bit down and brings in the top bit |
| `Words.SameBits` | code/machine/mipssim.cc:446-456 | a word is determined by its bits |
| `Multiply.Mult` | code/machine/mipssim.cc:771-828 | the two words are exactly the 64-bit product of any two ints, signed or unsigned |
| `Multiply.MultLoop` | code/machine/mipssim.cc:793-814 | the shift-and-add loop on 32-bit words, with tests of single bits, carry by comparison and early exit, gives the full unsigned product, also when the multiplier is negative and shifts in sign bits |
| `Multiply.NegateDouble` | code/machine/mipssim.cc:816-824 | complementing both words and carrying into the high one negates the double word |
| `Multiply.BitsOfStep` | code/machine/mipssim.cc:800-813 | what the masks and shifts of one step mean for the multiplier's last bit and the doubled multiplicand |
| `Mips.OverflowExact` | code/machine/mipssim.cc:157-175 | the sign-bit tests of ADD, ADDI and SUB hold exactly when the sum or difference of the two ints is not an int; all others are computed exactly |
| `Mips.ShiftRightLogical` | code/machine/mipssim.cc:520-530 | SRL and SRLV shift a signed int, so they are the logical shift if and only if the sign bit is clear or the distance is zero |
| `Mips.ShiftRightCopiesSign` | code/machine/mipssim.cc:520-524 | SRL of 0x80000000 by one gives 0xc0000000, where the logical shift gives 0x40000000 |
| `Mips.DivisionExact` | code/machine/mipssim.cc:227-249 | quotient and remainder round towards zero |
| `Mips.DecodesRegisterFormat` | code/machine/mipssim.cc:725-761 | an instruction put together from its fields in the register format decodes to those fields |
| `Mips.DecodesImmediateFormat` | code/machine/mipssim.cc:725-761 | the same for the immediate format, the immediate sign-extended |
| `Mips.DecodesJumpFormat` | code/machine/mipssim.cc:725-761 | the same for the jump format |
| `Mips.ReadsOnly` | code/machine/mipssim.cc:154-691 | an instruction's effect depends only on the registers it is said to read |
| `Mips.WritesOnly` | code/machine/mipssim.cc:154-691 | it writes only the register it is said to write and loads only its target |
| `InstructionSet.SumLaw` | code/machine/mipssim.cc:157-175 | ADD, ADDI and SUB write the exact result if it is an int, and trap otherwise |
| `InstructionSet.WrapLaw` | code/machine/mipssim.cc:177-183 | ADDU, ADDIU and SUBU write the result modulo 2^32 |
| `InstructionSet.LogicLaw` | code/machine/mipssim.cc:446-456 | AND, OR, XOR, NOR and their immediate forms, bit by bit, an immediate having no bits from 16 on |
| `InstructionSet.ShiftLaw` | code/machine/mipssim.cc:470-530 | the six shifts, bit by bit, by the shift field or the low five bits of rs |
| `InstructionSet.ConstantLaw` | code/machine/mipssim.cc:295-298 | LUI and then ORI build any 32-bit constant |
| `InstructionSet.CompareLaw` | code/machine/mipssim.cc:479-509 | SLT and SLTI write 1 exactly when the difference of the ints is negative and otherwise 0, SLTU and SLTIU the same for words |
| `InstructionSet.CompareIsSubtract` | code/machine/mipssim.cc:479-540 | SLT is the sign of SUB whenever that does not trap, and SLTU the borrow of SUBU |
| `InstructionSet.BranchLaw` | code/machine/mipssim.cc:193-225 | each branch is taken exactly on its condition, to its offset in instructions from the delay slot; those that link write R31 before they test |
| `InstructionSet.EqualIsXor` | code/machine/mipssim.cc:193-225 | BEQ is taken exactly where XOR gives zero, BNE exactly elsewhere |
| `InstructionSet.BranchIsCompare` | code/machine/mipssim.cc:200-220 | BLTZ is taken exactly where SLT against zero gives one and BGTZ where SLT of zero against the register does; BGEZ and BLEZ are their complements |
| `InstructionSet.JumpLaw` | code/machine/mipssim.cc:251-261 | J and JAL replace the low 28 bits of the address after the delay slot, JR and JALR go to a register, and the link is the address after the delay slot |
| `InstructionSet.MoveLaw` | code/machine/mipssim.cc:420-434 | what is moved to HI or LO is what is moved back |
| `InstructionSet.MultiplyLaw` | code/machine/mipssim.cc:436-444 | HI and LO are the exact product of the ints or words |
| `InstructionSet.DivideUnsignedLaw` | code/machine/mipssim.cc:237-249 | DIVU is division with remainder; by zero it gives zeros |
| `InstructionSet.DivideLaw` | code/machine/mipssim.cc:227-235 | DIV rounds towards zero, the remainder with the sign of the dividend; only the most negative int by -1 wraps |
| `InstructionSet.LoadByteLaw` | code/machine/mipssim.cc:263-275 | LB and LBU load the byte at the address as an int or as a word, or trap as its translation does |
| `InstructionSet.LoadHalfLaw` | code/machine/mipssim.cc:277-293 | LH and LHU do the same for two bytes, least significant first |
| `InstructionSet.LoadWordLaw` | code/machine/mipssim.cc:300-310 | LW loads the four bytes |
| `InstructionSet.StoreLaw` | code/machine/mipssim.cc:458-550 | SB, SH and SW change exactly the bytes at the address to the register's low bytes, or trap as the translation does |
| `InstructionSet.TrapLaw` | code/machine/mipssim.cc:670-685 | SYSCALL and illegal instructions trap and change nothing |
| `InstructionSet.Disassembled` | code/machine/mipssim.h:117-150 | every instruction assembled under the number the architecture gives it decodes to that instruction, with its fields |
| `InstructionSet.DecodedCode` | code/machine/mipssim.h:117-150 | a word decodes to an instruction only if it has that instruction's number |
| `Cpu.StepBoundary` | code/machine/mipssim.cc:120-718 | R0 is zero and the pending load's register is below 32 at every instruction boundary |
| `Cpu.RegistersAfter` | code/machine/mipssim.cc:691-718 | after an instruction the pending load has been applied over anything it wrote, its own load is pending, and the program counters have moved on through the delay slot |
| `Cpu.RegistersAfterTrap` | code/machine/machine.cc:100-110 | a trap applies the pending load, records the address and changes nothing else |
| `Cpu.LoadIsDelayed` | code/machine/mipssim.cc:691-718 | a load reaches its register one instruction late, whatever the next instruction does |
| `Cpu.AttemptAfterFlush` | code/machine/machine.cc:100-110 | an instruction that tolerates the pending load traps with the same exception in the same state, or completes in the same state, with and without a flush before it |
| `Cpu.StepAfterFlush` | code/machine/interrupt.cc:309-311 | an instruction that tolerates the pending load has the same outcome, traps included, with and without a flush before it |
| `Cpu.InterruptsInvisible` | code/machine/interrupt.cc:309-311 | for programs free of load hazards (which may use a pending register where its value cannot matter: for R0, or combined with itself), interrupts before any set of instructions leave the same flushed registers and memory after any number of instructions, whatever the exception handler does |
| `Cpu.WriteHazard` | code/machine/mipssim.cc:711-718 | an instruction that writes a register with a load pending shows whether an interrupt came first if and only if it writes something other than what was loaded |
| `Cpu.ReadHazard` | code/machine/mipssim.cc:154-261 | an instruction that passes such a register on (by ADDU, SUBU, XOR, ADDIU, XORI, JR, JALR, MTHI or MTLO) shows it if and only if the load changes the register |
| `Unaligned.LeftMergedBytes` | code/machine/mipssim.cc:343-360 | LWL fills the register from the top with the bytes up to its address |
| `Unaligned.RightMergedBytes` | code/machine/mipssim.cc:396-415 | LWR fills it from the bottom with the bytes from its address on |
| `Unaligned.LeftStoredBytes` | code/machine/mipssim.cc:579-599 | SWL puts the top bytes at the addresses up to its own |
| `Unaligned.RightStoredBytes` | code/machine/mipssim.cc:640-655 | SWR puts the bottom bytes at the addresses from its own on |
| `Unaligned.UnalignedLoad` | code/machine/mipssim.cc:312-418 | LWL at A+3 then LWR at A deliver the little-endian word at A to A+3, with or without an interrupt between them |
| `Unaligned.UnalignedStore` | code/machine/mipssim.cc:552-668 | SWL at A+3 then SWR at A store exactly those four bytes and change no other virtual byte, if no page frame is mapped twice |
| `Unaligned.StoreThenLoad` | code/machine/mipssim.cc:312-668 | what the stores put at an address the loads bring back |
| `Machines.Machine.Translate` | code/machine/translate.cc:184-251 | finds the entry by index or by search, reports the first error in the code's order, sets the use and dirty bits only on success |
| `Machines.Machine.ReadMem` | code/machine/translate.cc:85-120 | reads the value, or raises the translation's exception with the address |
| `Machines.Machine.WriteMem` | code/machine/translate.cc:135-167 | stores the value, or raises the exception and stores nothing |
| `Machines.Machine.RaiseException` | code/machine/machine.cc:100-110 | records the bad address and flushes the pending load before the kernel sees the registers |
| `Machines.Machine.Checked` | code/machine/mipssim.cc:157-175 | ADD, ADDI and SUB, by their tests of exclusive-ored sign bits, trap and write nothing exactly when the exact result is not an int; SYSCALL and illegal instructions always trap |
| `Machines.DecodeBits` | code/machine/mipssim.cc:725-762 | the fields selected by shifts and masks are the instruction's fields in each format |
| `Machines.TargetBits` | code/machine/mipssim.cc:251-255 | a jump's target is the index over the top four bits of the delay slot's address |
| `Machines.ExtendedIs` | code/machine/mipssim.cc:269-292 | bytes and shorts are extended by their sign or by zeros |
| `Machines.MergeLeft` | code/machine/mipssim.cc:343-360 | LWL's masks and shifts, for each offset in the word |
| `Machines.MergeRight` | code/machine/mipssim.cc:396-416 | LWR's masks and shifts |
| `Machines.StoreLeft` | code/machine/mipssim.cc:579-599 | SWL's masks and shifts |
| `Machines.StoreRight` | code/machine/mipssim.cc:640-655 | SWR's masks and shifts |
| `Machines.Machine.MultiplyDivide` | code/machine/mipssim.cc:227-249 | multiplication, division and moves to HI and LO |
| `Machines.Machine.Jump` | code/machine/mipssim.cc:193-261 | branches and jumps, with the link written before the source register is read |
| `Machines.Machine.Load` | code/machine/mipssim.cc:263-310 | alignment, sign and zero extension by masks; loads leave memory alone and a delayed load to do |
| `Machines.Machine.Store` | code/machine/mipssim.cc:458-468 | stores, or an exception and no change |
| `Machines.Machine.PartialLoad` | code/machine/mipssim.cc:312-418 | LWL and LWR, merging with a load still pending for the register |
| `Machines.Machine.PartialStore` | code/machine/mipssim.cc:552-668 | SWL and SWR |
| `Machines.Machine.OneInstruction` | code/machine/mipssim.cc:120-702 | fetching, executing in place, applying the delayed load and advancing the program counters is one step of the machine |
| `Machines.MultIsProduct` | code/machine/mipssim.cc:436-444 | what Mult leaves in HI and LO is the product's high and low word |
| `Lists.List.Append` | code/lib/list.cc:73-89 | the item goes to the end, and the links stay a proper list |
| `Lists.List.Prepend` | code/lib/list.cc:96-112 | the item goes to the front |
| `Lists.List.RemoveFront` | code/lib/list.cc:123-142 | returns and removes the first item |
| `Lists.List.Remove` | code/lib/list.cc:149-178 | removes that item and no other, wherever it is; its assertions hold |
| `Lists.List.IsInList` | code/lib/list.cc:185-197 | answers whether the item is on the list |
| `Lists.List.Insert` | code/lib/list.cc:232-260 | puts the item before the first one greater than it |
| `Lists.InsertedStaysSorted` | code/lib/list.cc:232-260 | a sorted list stays sorted, gains exactly the item, and the item goes behind all its equals |
| `Lists.WithoutAt` | code/lib/list.cc:158-175 | removing the first occurrence takes out exactly that place |
| `Lists.ListIterator.Item` | code/lib/list.h:129 | the item at the iterator's place in the list |
| `Lists.ListIterator.Next` | code/lib/list.h:132 | following the link goes to the next place |
| `HashTables.HoldsMore` | code/lib/hash.cc:110-124 | adding an item to the bucket of its key adds it to the map the table holds |
| `HashTables.HoldsLess` | code/lib/hash.cc:210-223 | taking an item out of its bucket takes its key out of the map |
| `HashTables.ConcatIsContents` | code/lib/hash.cc:272-288 | bucket by bucket, the table lists every item of its map exactly once |
| `HashTables.FullLoad` | code/lib/hash.cc:116-118 | the resize test is true exactly when numItems has reached ResizeRatio * numBuckets |
| `HashTables.InitBuckets` | code/lib/hash.cc:45-52 | new empty lists, no two of them the same |
| `HashTables.AppendTo` | code/lib/hash.cc:120-148 | appending to one bucket's list, with a new element, leaves every other list as it is; lists and elements stay unshared |
| `HashTables.TakeFront` | code/lib/hash.cc:147 | taking the first item of one list does the same |
| `HashTables.TakeOut` | code/lib/hash.cc:218 | taking any item of one list does the same |
| `HashTables.HashTable.constructor` | code/lib/hash.cc:29-52 | a new table is empty |
| `HashTables.HashTable.Insert` | code/lib/hash.cc:110-124 | appends the item to the list its key hashes to; the list's assertion that it is not there holds; the table gains just that key; it grows, four times, exactly when numItems has reached ResizeRatio * numBuckets |
| `HashTables.HashTable.ReHash` | code/lib/hash.cc:136-153 | four times the buckets, the same map: every item is taken from the front of its old list and appended to a new one; nothing lost, nothing duplicated, everything where it now hashes to |
| `HashTables.HashTable.MoveFront` | code/lib/hash.cc:147-148 | one such move: the item leaves the old table's map and enters the new one's |
| `HashTables.HashTable.FindInBucket` | code/lib/hash.cc:168-181 | the item with the key, if it is in the table at all |
| `HashTables.HashTable.Find` | code/lib/hash.cc:193-198 | the item the map has for the key, or none |
| `HashTables.HashTable.Remove` | code/lib/hash.cc:210-223 | finds the item by its key and unlinks it from its list, and only it |
| `HashTables.HashTable.FindNextFullBucket` | code/lib/hash.cc:251-259 | skips empty buckets and loses no item |
| `HashTables.HashIterator.constructor` | code/lib/hash.cc:332-340 | all items remain to be visited |
| `HashTables.HashIterator.Item` | code/lib/hash.h:110 | the first of the items that remain |
| `HashTables.HashIterator.Next` | code/lib/hash.cc:349-360 | exactly that item is visited, so each is visited once and the iteration ends |
| `HashTables.Visit` | code/lib/hash.h:93-99 | stepping an iterator from start to end yields every item of the table exactly once, and nothing else |

## Left out

- Kernel, Monitor, SynchList, Requests, SynchDisk, PostOffice, Outbox and Network are transition systems over values, not classes: a P that blocks returns only after steps of other threads, which a sequential method cannot express. Update in place and aliasing of semaphores, locks and queues are not captured.
- Kernel.StepKeepsInv: more interleavings are allowed than the machine produces, since any thread may call P, V, Yield, Fork or Finish at any step; when a timer interrupt makes a thread yield is not tied to simulated time.
- Interrupts.Interrupt.OneTick: does not perform the context switch that follows a time slice but returns the request for it, because that switch is an event of Kernel.
- Interrupts.Interrupt.CheckIfDue: a handler is any function of what has been delivered that asks for new interrupts and a context switch; its effect on threads and registers is in Kernel and Cpu.
- Machines.Machine.RaiseException: stops where ExceptionHandler is called; Cpu.Step continues with an arbitrary handler.
- Machines.Machine.MultiplyDivide: dividing the most negative int by -1 is undefined in C++; here it wraps.
- Files.OpenFile.WriteAt: the bytes past the end of a file in its last sector are not specified, because the code may write whatever its buffer held there.
- Files.OpenFile.ReadAt: positions are not negative and position + numBytes does not overflow an int, which the code does not test.
- FileSystems.FileSystem.Create: sizes are between 0 and MaxFileSize, which the code takes for granted.
- FileStore.Copy: the host's file is a sequence of bytes, at most MaxFileSize of them, read in full pieces.
- FileSystems.RunKeepsInv: no concurrent callers, no crashes between writes, and no use of a handle after its file has been removed; the code disclaims these in code/filesys/filesys.cc:31-40.
- Cpu.InterruptsInvisible: the exception handler is any function of the exception and the flushed state that leaves R0 zero and no load pending for a special register.
- Cpu.ReadHazard: for instructions through which a changed register may or may not show, such as AND or a shift, the exact condition is not stated; InterruptsInvisible does not allow them to use a register whose load is pending.
- Volume and Directories assume the layout of a little-endian host with 4-byte ints, 1-byte bools and 4-byte alignment for the sectors of headers, map words and directory entries.
- HashTables.HashTable.ReHash: the number of buckets does not overflow an int.
- Lists.List.Insert: allocates its element again in Prepend or Append when the item goes to either end.
- PostOffice.DeliveryIsFaithful: putting into and getting from a mailbox are single steps; SynchList proves mailboxes first in, first out by themselves, but several monitors over one kernel are not composed.
- PostOffice.NextKeepsInv: the same.
- Network.MailArrives: a packet is in the receiver's socket as soon as it is sent, and the box named in it exists on the receiver, which the sender does not test.
- The order in which threads pass a semaphore or lock is not promised, since a thread that arrives later may pass first; only the order in which they are woken and dispatched is.
- Host files, sockets, consoles, the stub file system, stack allocation and SWITCH's assembly, user programs, loading and address spaces, debugging output, SelfTest, the Print routines of data structures and Apply.
