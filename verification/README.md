# A verified model of Nachos 3.4

Nachos is a teaching operating system together with the machine it runs on: a disk, a
clock with interrupts, a network and a MIPS processor, all simulated.  This project
models its hard parts in Dafny and proves what they promise for every input, every
reachable state and every run.  `dafny verify dfyconfig.toml` checks all of it.

**The file system** (`Words`, `BitMap`, `SlotTable`, `DiskLayout`, `OpenFile`, `Directory`,
`FsImage`, `FsSteps`, `FileSystem`, `FsRuns`, `FsTest`). The bitmap, file headers, directory and
open files are classes that move 128-byte sectors on a disk of 1024. `FsInv` says that the
bitmap on the disk marks exactly the union of the system files and of every file's header and
data sectors, all disjoint. `Abs` reads a map from names to byte strings off a raw disk image.
The main theorem, `FsRuns.RunRefines`, says that every run of create, open, close, seek, read,
write and remove on a formatted disk is a run of that map, result by result.

**Threads, semaphores and the clock** (`List`, `ListSet`, `InterruptQueue`, `Interrupt`,
`Kernel`, `KernelSems`, `KernelIds`, `KernelRuns`, `KernelOrder`, `KernelFates`,
`KernelHistory`, `KernelNumbers`, `ThreadLists`, `KernelMachine`, `Machine`, `MachineOrder`,
`MachineEffects`). The linked list is a heap structure refined to a sequence; pending
interrupts, the ready list, semaphore queues and mailboxes are kept on it. The kernel is a step
machine with a state of its own for the idle loop inside Sleep and for the moment between waking
up in P and looking at the value again; the class `System` performs the same steps on the
kernel's variables and lists. `KernelRuns.RunInv` carries the invariants over every run, and
`Machines.RunMachine` does so for kernel and clock together. `KernelHistory` tells values,
queues and the ready list of every run from its steps alone.

**The post office** (`Mail`, `PostOffice`, `PostDelivery`, `PostProgress`, `MailBoxes`,
`PostMachine`). Any number of machines, lossy wires, the one-packet inbox, the polling
interrupt, the postal worker and the mailboxes form one step machine. `PostDelivery.RunExact`
and `PostProgress.NothingStuck` are the theorems on delivery. `PostMachine` holds the device and
the post office with their byte buffers.

**The devices** (`DiskDevice`, `Arithmetic`, `Translate`). Disk latency against the rotation of
the disk, the shift-and-add multiply, overflow tests, and virtual memory.

Integers of the source are `int32` and `word`, with wrap-around written out where it can
happen.  `char` is signed and the host is little-endian, as on the x86 hosts the makefiles
name.  The socket is a queue, Random a free choice of which packets are lost, and interrupt
handlers are arbitrary functions of what fired so far.

Properties one might expect but which the code does not have, each with the exact condition
under which it does:

- Interrupts set for the same time fire in the order they have on the list, while nothing joins
  them, exactly when the number of early looks is a multiple of how many they are
  (`MachineOrder.FiresInOrderExactly`).  An early look is a tick, of either length, or an idle turn
  that ends with one of them at the front and not yet due.  `MachineOrder.OrderInRun` gives the
  order when others join, and `MachineOrder.NoFifoAmongEquals` is a run that fires two in reverse.
- A finished thread is deleted exactly when the processor goes to a thread that has run before,
  at once or before the next thread finishes (`KernelFates.FateOfFinished`;
  `KernelFates.LostThread` is a run that loses one), although the comment at
  code/threads/thread.cc:138-140 says it always will be.
- The destructor of a thread writes inside the table of numbers exactly when the thread was not
  created with all 128 numbers taken (`KernelNumbers.DeletionInside`;
  `KernelNumbers.OutsideRun` is a run that writes outside).  What the invariants say of the table
  is said of the code in the runs that delete no such thread.

## Model

| member | source | states |
|---|---|---|
| `Words.WordsRoundTrip` | code/userprog/bitmap.cc:148-165 | an array of words stored byte by byte and fetched again is the same array |
| `Words.IntsRoundTrip` | code/filesys/filehdr.cc:77-94 | the same for arrays of signed ints |
| `Words.SetBit` | code/userprog/bitmap.cc:46-51 | or-ing a shifted one sets that binary digit and no other |
| `Words.ClearBit` | code/userprog/bitmap.cc:60-65 | and-ing with the complement clears that binary digit and no other |
| `Words.TestMask` | code/userprog/bitmap.cc:74-83 | the masked word is non-zero exactly when the digit is set |
| `BitMaps.BitMap.constructor` | code/userprog/bitmap.cc:20-27 | a new map is the empty set |
| `BitMaps.BitMap.Mark` | code/userprog/bitmap.cc:46-51 | adds exactly one number to the set, no other bit changes |
| `BitMaps.BitMap.Clear` | code/userprog/bitmap.cc:60-65 | takes exactly one number out of the set, no other bit changes |
| `BitMaps.BitMap.Test` | code/userprog/bitmap.cc:74-83 | membership |
| `BitMaps.BitMap.Find` | code/userprog/bitmap.cc:94-103 | adds and returns the least number not in the set; -1, changing nothing, exactly when the set is full |
| `BitMaps.BitMap.NumClear` | code/userprog/bitmap.cc:111-119 | the size of the complement |
| `BitMaps.MarkOnDisk` | code/userprog/bitmap.cc:148-165 | in the stored map, number i is digit i % 8 of byte i / 8 |
| `DiskLayout.HeaderRoundTrip` | code/filesys/filehdr.cc:77-94 | a header written to a sector and fetched again is the same header |
| `DiskLayout.HeaderOnDisk` | code/filesys/filehdr.h:60-62 | length, number of sectors and the sector table are the 32 ints of the sector in that order, least significant byte first |
| `DiskLayout.ContentOnDisk` | code/filesys/filehdr.cc:106-110 | byte r of the qth 128 bytes of a file is byte r of its qth data sector |
| `DiskLayout.ClipExactly` | code/filesys/openfile.cc:123-126 | a byte is moved exactly when it lies in the file and in the request |
| `DiskLayout.DataSetSize` | code/filesys/filehdr.cc:41-52 | a file has as many distinct data sectors as its length needs |
| `DiskLayout.ContentFrame` | code/filesys/openfile.cc:116-144 | a file's content depends on its own data sectors only |
| `OpenFiles.SynchDisk.ReadSector` | code/filesys/synchdisk.cc:72-79 | the buffer holds the sector, the rest of it is kept |
| `OpenFiles.SynchDisk.WriteSector` | code/filesys/synchdisk.cc:90-97 | one sector is replaced, all others kept |
| `OpenFiles.FileHeader.Allocate` | code/filesys/filehdr.cc:41-52 | succeeds exactly when enough sectors are free, and then takes the right number of distinct, previously free ones; otherwise leaves every word of the map alone |
| `OpenFiles.FileHeader.Deallocate` | code/filesys/filehdr.cc:61-68 | gives back exactly the file's data sectors; the assertion on each never fails |
| `OpenFiles.FileHeader.FetchFrom` | code/filesys/filehdr.cc:77-81 | the header is what the sector encodes |
| `OpenFiles.FileHeader.WriteBack` | code/filesys/filehdr.cc:90-94 | the sector decodes to the header, no other sector changes |
| `OpenFiles.OpenFile.constructor` | code/filesys/openfile.cc:30-35 | the header on the disk, position zero |
| `OpenFiles.OpenFile.ReadAt` | code/filesys/openfile.cc:116-144 | exactly the file's bytes from the position on, clipped at the end, and nothing else in the caller's buffer changes |
| `OpenFiles.OpenFile.WriteAt` | code/filesys/openfile.cc:146-186 | replaces exactly the bytes from position to position+n for aligned and unaligned ends, and leaves every sector outside the file's data alone |
| `OpenFiles.StoredIsSplice` | code/filesys/openfile.cc:160-184 | whole sectors written from a buffer that agrees at both ends amount to a splice of the content |
| `OpenFiles.OpenFile.Read` | code/filesys/openfile.cc:74-80 | reads at the position and moves it by what was read |
| `OpenFiles.OpenFile.Write` | code/filesys/openfile.cc:82-88 | writes at the position and moves it by what was written |
| `Directories.SamePrefix` | code/filesys/directory.cc:90-97 | strncmp on 9 characters: the names agree up to their ends or the limit |
| `Directories.CopyName` | code/filesys/directory.cc:129-143 | strncpy: the stored bytes name the same file |
| `Directories.TableRoundTrip` | code/filesys/directory.cc:63-80 | a directory written to its file and fetched again is the same directory |
| `Directories.EntryOnDisk` | code/filesys/directory.h:32-39 | flag, sector and name of an entry are at bytes 0, 4 and 8 of its 20 |
| `Directories.KeyExactly` | code/filesys/directory.cc:94 | two strings are one name exactly when their characters agree up to a NUL in both, or in all of the first nine |
| `Directories.Directory.FindIndex` | code/filesys/directory.cc:90-97 | an entry in use whose stored characters are the same name, or -1 exactly when there is none |
| `Directories.Directory.Find` | code/filesys/directory.cc:108-116 | look-up in the map the table stands for |
| `Directories.Directory.Add` | code/filesys/directory.cc:129-143 | succeeds exactly when the name is absent and a slot is free, and then adds one binding; otherwise changes nothing |
| `Directories.Directory.Remove` | code/filesys/directory.cc:153-162 | succeeds exactly when the name is there; takes out that binding |
| `SlotTables.EntriesCount` | code/filesys/directory.cc:129-143 | a full table is one with as many bindings as slots |
| `Ownership.OwnedAdd` | code/filesys/filesys.cc:191-207 | a file put on free sectors keeps all files disjoint and the union exact |
| `Ownership.OwnedRemove` | code/filesys/filesys.cc:272-283 | taking a file away gives back exactly its sectors |
| `Ownership.UnionSize` | code/filesys/filesys.cc:174-215 | how many sectors a number of files can occupy |
| `FsSteps.CreatedKeepsInv` | code/filesys/filesys.cc:174-215 | a create keeps the bitmap exact and all files disjoint, and adds one file to the map |
| `FsSteps.RemovedKeepsInv` | code/filesys/filesys.cc:257-288 | a remove keeps the bitmap exact, frees exactly the file's sectors and takes one file out of the map |
| `FsSteps.WrittenKeepsInv` | code/filesys/openfile.cc:146-186 | a write keeps the bitmap exact and changes the content of one file |
| `FsSteps.SpaceSuffices` | code/filesys/filesys.cc:174-215 | ten files of any size always fit the disk |
| `FileSystems.Format` | code/filesys/filesys.cc:80-143 | whatever was on the disk, the bitmap then describes exactly the two system files, itself included, and there are no files |
| `FileSystems.FileSystem.constructor` | code/filesys/filesys.cc:80-143 | formatting gives an empty, consistent disk; mounting changes no sector |
| `FileSystems.FileSystem.Create` | code/filesys/filesys.cc:174-215 | succeeds exactly when the name is absent, a slot is free and enough sectors are free; on failure no sector changes |
| `FileSystems.FileSystem.Open` | code/filesys/filesys.cc:227-241 | the header of the named file, or null exactly when there is none |
| `FileSystems.FileSystem.Remove` | code/filesys/filesys.cc:257-288 | removes exactly the named file; fails, changing nothing, exactly when there is none |
| `FileSystems.Reserve` | code/filesys/filesys.cc:182-200 | the in-memory part of Create: exactly when it fails, and what it has reserved otherwise |
| `FileSystems.Release` | code/filesys/filesys.cc:272-280 | the in-memory part of Remove |
| `FsRuns.CreateDecision` | code/filesys/filesys.cc:174-215 | the three ways to fail come down to two on any consistent disk: space never runs out before the directory does |
| `FsRuns.TwoNames` | code/filesys/filesys.cc:174-215 | two creates under new names with room for both succeed both exactly when the names differ within what the directory compares; then they are separate entries with headers of their own |
| `FsRuns.SliceExactly` | code/filesys/openfile.cc:117-144 | a read of the map's string gives exactly the bytes in the string and in the request |
| `FsRuns.OverwriteExactly` | code/filesys/openfile.cc:147-189 | a write to the map's string changes exactly the bytes in the string and in the request |
| `FsRuns.CreateRefines` | code/filesys/filesys.cc:174-215 | Create adds a file of the given length to the map exactly when the name is new and there are fewer than ten files; every other file keeps its header and content |
| `FsRuns.RemoveRefines` | code/filesys/filesys.cc:257-288 | Remove takes exactly the named file out of the map |
| `FsRuns.WriteRefines` | code/filesys/openfile.cc:146-186 | a write through a file's header changes that entry of the map and no other |
| `FsRuns.CreateThenRemove` | code/filesys/filesys.cc:174-288 | Create then Remove restores the bitmap, the directory and the map |
| `FsRuns.StepRefines` | code/filesys/filesys.cc:174-288 | each call on the disk is the corresponding step of the map |
| `FsRuns.RunRefines` | code/filesys/filesys.cc:80-288 | in every run from a formatted disk every state is consistent and every call returns what the map says |
| `FsTests.WriteChunksIsOne` | code/filesys/fstest.cc:62-64 | writing in chunks of any sizes is one write |
| `FsTests.ReadChunksIsOne` | code/filesys/fstest.cc:89-92 | reading in chunks of any sizes is one read |
| `FsTests.ChunksRoundTrip` | code/filesys/fstest.cc:31-97 | what was written in chunks comes back in other chunks, up to the file length |
| `FsTests.Copy` | code/filesys/fstest.cc:31-70 | the file system afterwards holds the data under the new name, or is unchanged exactly when the name exists or the directory is full |
| `FsTests.Print` | code/filesys/fstest.cc:77-97 | the read loop ends and prints the whole file |
| `Lists.InsertedSorted` | code/threads/list.cc:181-207 | sorted insertion keeps order and puts the new item behind its equals |
| `Lists.InsertedKeeps` | code/threads/list.cc:181-207 | the old items stay, in order, around the new one |
| `Lists.List.Append` | code/threads/list.cc:77-90 | the item goes to the end; links, last pointer and count stay right |
| `Lists.List.Prepend` | code/threads/list.cc:104-117 | the item goes to the front |
| `Lists.List.SortedInsert` | code/threads/list.cc:181-207 | the heap walk and relinking insert before the first larger key |
| `Lists.List.SortedRemove` | code/threads/list.cc:222-243 | takes off the front with its key, nothing from an empty list |
| `Lists.List.Remove` | code/threads/list.cc:127-131 | takes off the front item |
| `Lists.List.RemoveItem` | code/threads/list.cc:247-275 | unlinks the first element that holds the item, wherever it is |
| `Lists.List.IsEmpty` | code/threads/list.cc:157-164 | empty exactly when nothing is on the list |
| `InterruptQueues.PutBackRotates` | code/machine/interrupt.cc:309-311 | a look that comes too early moves the front behind the others set for its time |
| `InterruptQueues.LooksRotate` | code/machine/interrupt.cc:309-311 | m early looks turn a group of interrupts for the same time by m |
| `InterruptQueues.FiresDue` | code/machine/interrupt.cc:166-171 | a tick fires exactly what is due, in the order of the list, whatever handlers schedule meanwhile |
| `InterruptQueues.AtAdd` | code/machine/interrupt.cc:264-275 | a new interrupt goes behind the others set for its time and leaves the order for every other time alone |
| `InterruptQueues.AtDrained` | code/machine/interrupt.cc:166-171 | what a drain does to the interrupts set for any one time, wherever they are on the list: they fire in list order, those that handlers ask for go to the end, and a last look that finds them too early turns them by one |
| `MachineOrder.StepAt` | code/machine/interrupt.cc:150-234 | the same for every event of threads, devices and clock |
| `MachineOrder.OrderInRun` | code/machine/interrupt.cc:150-336 | over every run, what fired of the interrupts set for one time, with what is pending of them, is in the order that joins and early looks give |
| `MachineOrder.FiresTurned` | code/machine/interrupt.cc:150-336 | over every run, while nothing joins them, they are turned by the number of ticks and idle turns whose last look finds them at the front too early, modulo how many they are, and fire in that order |
| `MachineOrder.FiresInOrderExactly` | code/machine/interrupt.cc:150-336 | so they fire in the order they had exactly when that number is a multiple of how many they are, if the first can be told from the others |
| `MachineOrder.NoFifoAmongEquals` | code/machine/interrupt.cc:309-311 | a run from start-up in which two interrupts set for time 25 fire in reverse, after one early look and two early ticks |
| `InterruptQueues.NothingDue` | code/machine/interrupt.cc:290-336 | looking at the front is enough to know that nothing is due |
| `InterruptQueues.DrainedFacts` | code/machine/interrupt.cc:166-171 | after the drain the list is in order and nothing is due but the lone timer of an idle machine |
| `InterruptQueues.LogFire` | code/machine/interrupt.cc:290-336 | firing the front keeps the history in time order, never early, at most one tick late |
| `Interrupts.Interrupt.Schedule` | code/machine/interrupt.cc:264-275 | sorted insertion at now plus the delay |
| `InterruptQueues.CanFireExactly` | code/machine/interrupt.cc:305-319 | the front fires exactly when it is due and is not the only interrupt, a timer, of an idle machine |
| `Interrupts.Interrupt.CheckIfDue` | code/machine/interrupt.cc:290-336 | exactly when something fires, what fires, how far the clock moves and what is pending afterwards |
| `Interrupts.Interrupt.Drain` | code/machine/interrupt.cc:166-171 | the loop ends although handlers schedule more, and leaves exactly the list and the record of the drain |
| `Interrupts.Interrupt.HandleTick` | code/machine/interrupt.cc:150-171 | ticks add up, list and record are those of the drain, nothing pending is due, and a yield is asked for exactly when a handler asked for one |
| `Interrupts.Interrupt.OneTick` | code/machine/interrupt.cc:150-179 | the whole tick: without a yield exactly the drain; with one, whatever other threads do with the clock meanwhile, the record only grows and the thread finds the mode it was in |
| `Interrupts.Interrupt.SetLevel` | code/machine/interrupt.cc:114-127 | enabling costs a whole tick, everything else is free, and the mode is the same afterwards |
| `Interrupts.Interrupt.Idle` | code/machine/interrupt.cc:210-234 | halts, firing nothing, exactly when nothing or only one timer is pending; otherwise time jumps to the front interrupt, which fires first, and everything due then follows |
| `Interrupts.Interrupt.Fire` | code/machine/interrupt.cc:322-335 | runs the front handler and records it |
| `Kernels.StepPlaced` | code/threads/thread.cc:61-230 | every step keeps every thread in its place with matching status, also inside the idle loop |
| `Kernels.ReapPlaced` | code/threads/scheduler.cc:90-135 | the thread deleted after a switch is neither current nor on any list |
| `Kernels.FreeID` | code/threads/thread.cc:339-353 | the least free number, or -1 exactly when all are taken |
| `KernelSems.StepSems` | code/threads/synch.cc:64-98 | every step keeps value = initial + Vs - Ps, and no wakeup is lost |
| `KernelSems.VSems` | code/threads/synch.cc:87-98 | V wakes one waiter for the value it adds |
| `KernelSems.TryPSems` | code/threads/synch.cc:64-77 | one turn of the wait loop in P keeps the balance, whether it takes the value or sleeps |
| `KernelIds.StepIds` | code/threads/thread.cc:61-69 | numbers are unique among living threads and marked exactly when in use, as long as the destructor writes inside the table |
| `KernelIds.UnnumberedExactly` | code/threads/thread.cc:339-353 | a new thread goes without a number exactly when as many living threads have one as there are numbers |
| `KernelRuns.RunInv` | code/threads/scheduler.cc:53-135 | all of these hold in every state of every run |
| `KernelRuns.ExactlyOnePlace` | code/threads/thread.cc:147-230 | outside the idle loop a started thread is current, ready, on one semaphore queue or finished, and only one of these |
| `KernelRuns.DeletedIsNowhere` | code/threads/thread.cc:61-69 | a deleted thread is never current or on any list |
| `KernelRuns.HaltIsQuiescent` | code/threads/thread.cc:225-227 | when the machine has nothing to run, every semaphore with waiters has value zero |
| `KernelOrder.StepOrder` | code/threads/scheduler.cc:53-74 | a switch runs the front of the ready list and moves every other thread up by one; any other step leaves every ready thread where it is |
| `KernelOrder.PositionInRun` | code/threads/scheduler.cc:53-74 | in every run a ready thread moves up by one with every switch, whatever is made ready meanwhile |
| `KernelOrder.DispatchedExactly` | code/threads/scheduler.cc:53-74 | in every run the thread at position p runs with exactly the (p+1)th later switch, and is ready until then |
| `KernelHistory.StepReady` | code/threads/scheduler.cc:53-74 | what each step puts at the end of the ready list and whether it takes the front |
| `KernelHistory.ReadyInRun` | code/threads/scheduler.cc:53-74 | in every run the ready list is all threads made ready, in order, less one for each switch |
| `KernelHistory.SwitchesInOrder` | code/threads/scheduler.cc:70-74 | in every run switch number p goes to the thread made ready as number p |
| `KernelHistory.StepSem` | code/threads/synch.cc:36-98 | value and queue of every semaphore after every step |
| `KernelHistory.ValueInRun` | code/threads/synch.cc:36-98 | in every run the value is the argument of the step that created the semaphore, plus the V steps on it, less the tests in P that found it positive, all counted from the steps |
| `KernelHistory.QueueInRun` | code/threads/synch.cc:69-98 | in every run the queue is those who went to sleep on the semaphore and were not woken, longest-waiting first |
| `KernelHistory.WakesLongest` | code/threads/synch.cc:87-98 | in every run a V makes the longest-waiting thread ready, if one waits, and no other |
| `KernelFates.StepFate` | code/threads/scheduler.cc:90-135 | the thread set aside for deletion is lost exactly by a finish, deleted exactly by a switch to a thread that has run before, and otherwise stays |
| `KernelFates.FateInRun` | code/threads/scheduler.cc:90-135 | over every run: deleted exactly when such a switch comes before the next finish, lost for good exactly when the finish comes first |
| `KernelFates.FateOfFinished` | code/threads/thread.cc:147-158 | the same from the moment a thread finishes |
| `KernelFates.NeverRunsAgain` | code/threads/thread.cc:147-157 | in every run a finished thread is never ready, waiting or running again |
| `KernelFates.ForgottenForever` | code/threads/scheduler.cc:120-127 | a finished thread that is no longer set aside is never deleted |
| `KernelFates.LostThread` | code/threads/thread.cc:147-158 | a run from start-up, of two creations, two forks and two finishes, that loses the main thread |
| `KernelNumbers.UnnumberedInRun` | code/threads/thread.cc:339-353 | in every run a thread has no number exactly when it was created with the table full |
| `KernelNumbers.DeletionInside` | code/threads/thread.cc:61-69 | in every run the destructor writes inside the table of numbers exactly when the thread was not created with the table full |
| `KernelNumbers.AlwaysInside` | code/threads/thread.cc:61-69 | so it always does in runs that create threads only while fewer than 128 have numbers |
| `KernelNumbers.OutsideRun` | code/threads/thread.cc:61-69 | a run from start-up, with 129 threads, whose last step writes outside |
| `KernelMachine.System.constructor` | code/threads/thread.cc:36-47 | the thread that starts Nachos is the main thread |
| `ThreadLists.Queues.PutReady` | code/threads/scheduler.cc:53-60 | appending to the linked ready list adds the thread at the end and leaves every queue alone |
| `ThreadLists.Queues.TakeReady` | code/threads/scheduler.cc:70-74 | removing from the linked ready list takes the front and leaves every queue alone |
| `ThreadLists.Queues.PutWaiting` | code/threads/synch.cc:64-77 | appending to one semaphore's linked queue leaves the ready list and every other queue alone |
| `ThreadLists.Queues.TakeWaiting` | code/threads/synch.cc:87-98 | removing from one semaphore's linked queue leaves the ready list and every other queue alone |
| `KernelMachine.System.ReadyToRun` | code/threads/scheduler.cc:53-60 | the step, on the linked ready list |
| `KernelMachine.System.FindNextToRun` | code/threads/scheduler.cc:70-74 | the front of the linked ready list, or nothing |
| `KernelMachine.System.Run` | code/threads/scheduler.cc:90-135 | the context switch, with the deletion that follows it only for a thread that ran before |
| `KernelMachine.System.Sleep` | code/threads/thread.cc:215-230 | blocks, then switches or starts to idle |
| `KernelMachine.System.WakeFromIdle` | code/threads/thread.cc:225-229 | a later turn of the loop: the step Resume exactly when a handler made a thread ready |
| `KernelMachine.System.P` | code/threads/synch.cc:64-77 | one turn of P |
| `KernelMachine.System.V` | code/threads/synch.cc:87-98 | the step, on the linked queue and ready list |
| `KernelMachine.System.Yield` | code/threads/thread.cc:178-194 | the step Yield, a no-op with nobody else ready |
| `KernelMachine.System.Finish` | code/threads/thread.cc:147-158 | the step Finish |
| `KernelMachine.System.NewSemaphore` | code/threads/synch.cc:36-41 | a semaphore with an empty linked queue of its own |
| `KernelMachine.System.NewThread` | code/threads/thread.cc:36-47 | a thread not yet started, with a number if there is one |
| `KernelMachine.System.AllocateThreadID` | code/threads/thread.cc:339-353 | the scan finds the least free number |
| `KernelMachine.System.Fork` | code/threads/thread.cc:91-103 | the step Fork: a started thread is ready and fresh |
| `Machines.StepMachine` | code/machine/interrupt.cc:150-234 | kernel and clock together: every call, device start, tick with its handlers and yield, and idle turn keeps both in order |
| `Machines.RunMachine` | code/machine/interrupt.cc:150-234 | in every run with any handlers the kernel invariants hold, interrupts fire in order and in time, nothing is left overdue, and the clock is idle, system and user ticks together |
| `Machines.HaltsQuiet` | code/machine/interrupt.cc:210-234 | the machine halts only when every semaphore that is waited for has value zero and nothing but the timer is pending |
| `Machines.NoTurn` | code/machine/interrupt.cc:210-234 | with nothing pending, or one timer, no idle turn happens |
| `Machines.SomeTurn` | code/machine/interrupt.cc:210-223 | otherwise one can, if handlers call V on semaphores that exist |
| `Machines.TurnFires` | code/machine/interrupt.cc:290-336 | an idle turn takes the clock to the front interrupt and fires that one first |
| `MachineEffects.UnitsArrive` | code/machine/interrupt.cc:166-171 | over a tick or an idle turn a semaphore gains exactly one unit for each V of a handler that fired |
| `MachineEffects.AskedExactly` | code/machine/interrupt.cc:172-178 | a yield is asked for exactly when some handler that fired wants it |
| `MachineEffects.TickSwitches` | code/machine/interrupt.cc:172-178 | a tick hands the processor to the front of the ready list when such a handler fired and a thread was ready, and leaves it with the running thread when none did |
| `MachineEffects.TimeInRun` | code/machine/interrupt.cc:155-161 | in every run user time is one for each user tick, system time ten for each system tick, and the rest of the clock is idle |
| `Mails.PacketRoundTrip` | code/machine/network.cc:60-127 | what the receiving device splits a packet into is what the sender put together, whatever the padding |
| `Mails.MailRoundTrip` | code/network/post.cc:221-291 | the worker recovers header and every byte of data from a payload |
| `Mails.OnTheWire` | code/machine/network.h:31-38 | where the six header fields and the data are in a packet, least significant byte first |
| `PostOffices.StepHosts` | code/network/post.cc:221-329 | every step keeps every machine in order: the semaphore counts the buffered packet, and every packet is for this machine and well formed |
| `PostOffices.TakePacketOk` | code/machine/network.cc:130-139 | a worker past P finds a packet |
| `PostOffices.PollOk` | code/machine/network.cc:60-87 | a poll keeps the machine in order |
| `PostDelivery.PollArriving` | code/machine/network.cc:60-87 | a poll overwrites no buffered packet and drops none: what is on its way stays the same, message by message |
| `PostDelivery.StepInOrder` | code/network/post.cc:221-291 | every send, loss, poll, worker step and receive keeps the delivery order |
| `PostDelivery.PutMailStream` | code/network/post.cc:221-246 | putting a message into its mailbox moves it within the stream without changing it |
| `PostDelivery.SendFlow` | code/machine/network.cc:103-127 | a sent or lost message keeps the streams part of what was sent |
| `PostDelivery.RunInOrder` | code/network/post.cc:221-329 | in every run, for every sender, receiver and mailbox, what was taken, is queued, in hand, in the inbox and on the wire is an in-order part of what was sent there, unaltered and without duplicates, and nothing comes from elsewhere |
| `PostDelivery.TakenInOrder` | code/network/post.cc:308-316 | what Receive gave out of a mailbox is an in-order part of what each sender sent to it |
| `PostDelivery.StepKept` | code/network/post.cc:221-291 | a step adds to a stream exactly the message that is sent to it and not lost |
| `PostDelivery.RunExact` | code/network/post.cc:221-329 | in every run a stream is exactly what was sent to it and not lost by the sending device, so what Receive gave out is the first part of that |
| `PostProgress.PollExactly` | code/machine/network.cc:60-87 | a poll moves the first message on the wire into a free inbox and does one V; otherwise it changes nothing |
| `PostProgress.DeliversNext` | code/network/post.cc:221-245 | from every state in order, Poll and the worker's steps put the oldest message on its way into its mailbox and change nothing else |
| `PostProgress.DeliversAll` | code/network/post.cc:221-245 | repeated, they empty wire and inbox into the mailboxes, in order, in at most four steps a message |
| `PostProgress.NothingStuck` | code/network/post.cc:221-245 | so from every state of every run one is reached where each mailbox with what was taken out of it is exactly what was sent to it and not lost |
| `PostProgress.RecordsInRun` | code/network/post.cc:272-316 | in every run the record of Send is the messages of the Send steps, and each Receive step took one message |
| `PostMachines.Network.CheckPktAvail` | code/machine/network.cc:60-87 | reads the next packet exactly when the inbox is free and one is there; the assertion holds; the next poll is asked for in every case |
| `PostMachines.Network.Send` | code/machine/network.cc:103-127 | header and data at the front of a fixed-size packet, or nothing when lost; the send-done interrupt is asked for either way |
| `PostMachines.Network.Receive` | code/machine/network.cc:130-139 | hands over the payload and frees the inbox |
| `PostMachines.PostOffice.Poll` | code/network/post.cc:325-329 | the poll step on the device and the semaphore |
| `PostMachines.PostOffice.FetchPacket` | code/network/post.cc:228-231 | the worker's receive step; there is a packet |
| `PostMachines.PostOffice.PutIntoBox` | code/network/post.cc:232-245 | the worker's put step, on the linked list of the mailbox; the assertions on arriving mail hold |
| `PostMachines.PostOffice.Send` | code/network/post.cc:261-291 | the packet handed over is the wire form of the message |
| `MailBoxes.Boxes.Put` | code/network/post.cc:99-107 | appending to one mailbox's linked list leaves every other mailbox alone |
| `MailBoxes.Boxes.Get` | code/network/post.cc:121-139 | removing from one mailbox's linked list gives its oldest message and leaves every other mailbox alone |
| `PostMachines.PostOffice.Receive` | code/network/post.cc:308-316 | the step, on the linked list of the mailbox |
| `DiskDevices.TimeToSeek` | code/machine/disk.cc:179-196 | after seek and rotation the head is at a sector boundary; no seek exactly on the same track |
| `DiskDevices.SeekDistance` | code/machine/disk.cc:184 | a seek takes 500 ticks for every track of distance, in both directions alike |
| `DiskDevices.ModuloDiff` | code/machine/disk.cc:204-211 | the number of sectors to wait, less than a turn |
| `DiskDevices.BufferTestExact` | code/machine/disk.cc:234-250 | the track-buffer test holds exactly when the sector passed whole under the head since the buffer was started |
| `DiskDevices.EarliestPass` | code/machine/disk.cc:234-257 | any other request is done with the first pass of the sector after the seek |
| `DiskDevices.LatencyBounds` | code/machine/disk.cc:234-257 | between 500 and 31999 ticks, and a read never takes longer than a write |
| `DiskDevices.LatencyBoundMet` | code/machine/disk.cc:234-257 | the upper bound is reached |
| `DiskDevices.RequestServed` | code/machine/disk.cc:115-271 | every request is served by a pass of its sector while the head rests on its track |
| `DiskDevices.Disk.UpdateLast` | code/machine/disk.cc:261-271 | the head is then on the new sector's track and the buffer starts at the first sector boundary after it arrived there; on the same track nothing moves |
| `DiskDevices.Disk.ReadRequest` | code/machine/disk.cc:115-134 | data at once, interrupt after the latency; the record of served requests stays right |
| `DiskDevices.Disk.WriteRequest` | code/machine/disk.cc:136-153 | the same for writes, which are served after they were asked for |
| `DiskDevices.Disk.HandleInterrupt` | code/machine/disk.cc:161-166 | an idle disk started its buffer in the past, at a sector boundary, and has called the handler once for every request |
| `Arithmetic.MultLoop` | code/machine/mipssim.cc:655-676 | the loop adds up the exact unsigned product despite the arithmetic shift and the early break |
| `Arithmetic.Negate` | code/machine/mipssim.cc:678-687 | the two's complement of the double word |
| `Arithmetic.Mult` | code/machine/mipssim.cc:635-692 | hi:lo is the exact 64-bit product, signed and unsigned, for all operands |
| `Arithmetic.Cpu.Multiply` | code/machine/mipssim.cc:361-369 | the product lands in the Hi and Lo registers, no other register changes |
| `Arithmetic.Cpu.Add` | code/machine/mipssim.cc:125-133 | traps exactly when the sum does not fit, changing nothing |
| `Arithmetic.Cpu.AddImmediate` | code/machine/mipssim.cc:135-143 | the same with an immediate operand |
| `Arithmetic.Cpu.Subtract` | code/machine/mipssim.cc:457-465 | traps exactly when the difference does not fit, changing nothing |
| `Translation.TranslatedInside` | code/machine/translate.cc:186-255 | a translation stays inside memory and carries all bytes of the access along |
| `Translation.ByTable` | code/machine/translate.cc:196-255 | through a page table: which check fails first and its exception, or the frame and offset of the address, read off the entry |
| `Translation.ByTlb` | code/machine/translate.cc:220-255 | the same for the first valid TLB entry with the page number, and a miss exactly when there is none |
| `Translation.MarksExactly` | code/machine/translate.cc:248-250 | an access that goes through marks the entry used, dirty if it writes, and nothing else |
| `Translation.OwnFrames` | code/machine/translate.cc:212-251 | a page table with different frames in its valid entries gives no two pages a common byte |
| `Translation.LoadExactly` | code/machine/translate.cc:101-117 | the low bytes of a loaded value are the bytes in memory in order; one byte is sign-extended, two are not |
| `Translation.ByteSum` | code/machine/translate.cc:150-164 | a value is what its four bytes spell |
| `Translation.TlbAgrees` | code/machine/translate.cc:207-232 | a TLB that agrees with the page table misses or answers as the page table would; exactly when it misses |
| `Translation.AgreesStill` | code/machine/translate.cc:248-250 | use and dirty bits leave the agreement alone |
| `Translation.TouchedSame` | code/machine/translate.cc:248-250 | use and dirty bits change no translation |
| `Translation.StoreSeen` | code/machine/translate.cc:138-169 | with a frame to each page a store changes the named bytes of the address space and no other |
| `Translation.LoadSeen` | code/machine/translate.cc:87-122 | a load puts together the bytes of the address space |
| `Translation.WriteThenRead` | code/machine/translate.cc:87-169 | through the table a store marked, a load of the same place gives its low bytes, with the sign for one byte |
| `Translation.WriteElsewhere` | code/machine/translate.cc:87-169 | through the table a store marked, a load from other addresses faults or answers as before the store |
| `Translation.Machine.Translate` | code/machine/translate.cc:186-255 | the errors in their order, the address, and the use and dirty bits of exactly the entry used |
| `Translation.Machine.ReadMem` | code/machine/translate.cc:87-122 | the exception of the translation, or the value loaded, and what is marked in the table |
| `Translation.Machine.WriteMem` | code/machine/translate.cc:138-169 | the exception of the translation with memory unchanged, or the low bytes stored, and what is marked in the table |
| `Translation.Machine.WriteAndRead` | code/machine/translate.cc:87-169 | on the machine, a load after a store that went through gives its low bytes back |
| `Translation.Machine.ReadAcrossWrite` | code/machine/translate.cc:87-169 | on the machine, a load gives the same before and after a store elsewhere, faults included |

## Left out

- FileSystems.FileSystem.Create: sizes below zero or above 3840 bytes, which the code does not check and which overrun the header.
- OpenFiles.FileHeader.Allocate: the same sizes.
- FsTests.Copy: host files longer than 3840 bytes, for the same reason.
- OpenFiles.OpenFile.ReadAt: negative positions, and sums of position and count beyond a 32-bit int.
- OpenFiles.OpenFile.WriteAt: the same positions and sums.
- OpenFiles.OpenFile.Read: the same, for the position of the open file.
- OpenFiles.OpenFile.Write: the same, for the position of the open file.
- OpenFiles.SynchDisk.ReadSector: the lock and the wait for the disk interrupt, since Lock is an empty stub; one caller at a time.
- OpenFiles.SynchDisk.WriteSector: the same lock and wait.
- Directories.TableRoundTrip: the padding bytes of a directory entry, which have no meaning, are written as zeros.
- FsRuns.RunRefines: use of an open file after its file was removed, which the source leaves to the caller; the run drops such handles.
- PostDelivery.RunInOrder: sends to machines that do not exist.
- PostProgress.NothingStuck: that the worker is given the processor, which the source does not promise.
- PostMachines.PostOffice.Send: the send lock, which is an empty stub, and the wait for the send-done interrupt.
- PostMachines.PostOffice.Receive: waiting on an empty mailbox; a mailbox is put to and taken from in one step, since the lock and condition under it are empty stubs.
- Kernels.ReapPlaced: what the write outside the table of numbers destroys; the table itself stays as it was.
- KernelIds.StepIds: the same write.
- Interrupts.Interrupt.OneTick: which thread runs during the yield, which is a step of the kernel; what other threads do is any sequence of uses of the clock.
- Interrupts.Interrupt.SetLevel: the same.
- Machines.RunMachine: user and system mode, which the class Interrupt has; a tick of either length may come at any time.
- Translation.Machine.ReadMem: RaiseException and the handler it calls; the exception is reported instead.
- Translation.Machine.WriteMem: the same.
- DiskDevices.Disk.ReadRequest: the file of the host that stands for the disk is the sequence of sectors.
- DiskDevices.Disk.HandleInterrupt: what the handler does; its calls are counted.
- Lock and Condition: empty in the source.
- Context switch assembly, stacks, user registers, ThreadRoot: a switch changes the current thread and resumes it where it was.
- The rest of OneInstruction, the disassembler and the COFF tools: mostly one-line branches and file I/O.
- Elevator, console and timer devices.
- Host I/O, sockets, argument parsing, start-up, statistics output and debugging prints, including List and Print of the file system.
- Recovery from crashes: the source has none.
- The variant of the file system that maps straight to host files.
