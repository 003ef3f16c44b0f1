# Pintos, verified

A Dafny model of the algorithmic core of the Pintos teaching kernel, with proofs. The
repository holds two trees: `pintos` (priority scheduling) and `pintos2` (user programs and
swap); each part below is modelled on the tree whose version of the code is complete.

| file | models |
|---|---|
| `FsModel.dfy`, `FileSys.dfy` | the file system as a whole: free map, open-inode table, root directory, file handles, and every run of the calls on them |
| `Directory.dfy` | directories as files of 20-byte slots, against finite maps from names to inode sectors |
| `InodeIo.dfy` | the sector-by-sector transfer loops, against slices of byte sequences |
| `Synch.dfy`, `SynchCalls.dfy` | semaphores, locks, Mesa condition variables and the ready list, as a state machine over arbitrary interleavings; what each call achieves from its start to its return |
| `Malloc.dfy`, `Palloc.dfy`, `Bitmap.dfy` | the block allocator over the page allocator over word-packed bitmaps |
| `Arithmetic.dfy` | 64-bit division built from the 32-bit `divl` instruction |
| `HashTable.dfy`, `HeapSort.dfy` | the rehashing hash table; heapsort and binary search |
| `PageDir.dfy`, `ElfLoad.dfy`, `ArgvStack.dfy` | page tables, segment loading, tokenizing and the initial user stack |
| `Ustar.dfy` | the archive header printer and parser |
| `Donation.dfy`, `Swap.dfy` | the priority donation walk; swap slots |
| `Bytes.dfy`, `Common.dfy` | little-endian words, C strings; optional values, finite sets |

Code that changes state is a class or a method over arrays, proved against functions and
predicates on plain values; the theorems are lemmas about those. Memory allocations that can
fail, and writes of the free map file, are parameters of the calls, and the run theorems
hold for every pattern of failures. Lists follow the contracts of `lib/kernel/list.h` and are
sequences. A device is a sequence of 512-byte sectors. Machine words are integers with their
wrap-around written out where it can occur. Invariants are quantified over named predicates
and instantiated by hand, and `hide` statements keep definitions folded where a proof does
not need them; both keep the proofs short and quick.

What the proofs turned up about the code:

- `filesys_create` gives back only the inode sector when the directory entry cannot be added.
  `FileSys.FileSystem.Create` says for which calls the free map is then as before: exactly if
  the file was to be empty or its sectors could not be had. Otherwise data sectors stay marked
  that no file owns (`FileSys.FileSystem.CreateLeaks`, and a run in `FileSys.LeakASector`).
- A directory scan that runs out of memory looks like one that reached the end. `dir_add` can
  then enter a name a second time or overwrite an entry in use (`Directory.ShortScansDoHarm`);
  `Directory.AddRefinesIff` is the exact condition under which a reported success is one. The
  file system stays consistent all the same (`FileSys.FileSystem.Run`); what such a create
  costs is unique names, and the entry it overwrote.
- `malloc` of one of the last eleven 32-bit sizes returns a block of one page, and `realloc` to
  such a size can copy past it: `Malloc.Heap.Malloc` and `Malloc.CopyFitsIff` say exactly when.
- `swap_disk_to_frame` returns with `swap_lock` held when the key has no entry, and entries
  with equal keys form a queue: what comes back is the oldest (`Swap.RoundTrip`).
- `umod64` and `smod64` return 32-bit values; `UmodExactIff` and `SmodExactIff` say for which
  divisors that is the remainder.
- `bitmap_scan_and_flip` with a count of 0 returns its start argument; the comment above it
  promises 0, which is so if and only if the start is 0 (`Runs.FirstFitOfNothing`).
- The comment above `dir_remove` says that it fails only if the name is absent; it also fails
  when memory for the inode or for the write is missing. `FileSys.FileSystem.Remove` has the
  exact condition, and `FileSys.FailsOnlyIfAbsentIff` says when the comment is true.

## Model

| member | source | states |
|---|---|---|
| `FileSys.FileSystem.Run` | pintos/src/filesys/filesys.c:46-91 | for every sequence of create, open, reopen, close, remove, read, write and write-denial calls, whatever fails in between: each call does to directory, handles and free map what it should, in the order of the calls, and in the end there is one in-memory inode per sector, open and deny counts are exact, no handle or entry dangles, and live files are on pairwise disjoint sectors that are all marked; if no create was misled by a scan cut short, no name is there twice and the removed flag is exactly on open files without a name |
| `FileSys.FileSystem.Step` | pintos/src/filesys/filesys.c:46-91 | every single call succeeds exactly when it should and has exactly its effect on directory, handles and free map, keeps the whole invariant and leaves no reference behind; a call that is not a misled create also keeps names unique and removed flags exact |
| `FileSys.InvariantMeans` | pintos/src/filesys/inode.c:72-195 | the invariant in plain words: one inode per sector, open_cnt = handles, deny_write_cnt = denying handles, sectors of listed or open files disjoint and marked, a removed file unlisted |
| `FileSys.AllocatedMeans` | pintos/src/filesys/free-map.c:28-50 | no sector belongs to two live files, and every sector of a live file is marked |
| `FileSys.CountedMeans` | pintos/src/filesys/inode.c:112-195 | at most one in-memory inode per sector; its counters equal the numbers of handles |
| `FileSys.LiveMeans` | pintos/src/filesys/inode.c:164-195 | handles and entries lead to live files; a file marked removed is reachable by no name |
| `FileSys.FileSystem.Lifetime` | pintos/src/filesys/filesys.c:46-91 | create, open by name, remove, close: the free map is as before the create if and only if no earlier slot had the name, and then every mark stayed until the close |
| `FileSys.CreatedFirst` | pintos/src/filesys/directory.c:92-112 | after a create the name is found, and leads to the new file if and only if no earlier slot has it |
| `FileSys.LastClose` | pintos/src/filesys/inode.c:164-195 | removing an open file changes no mark; closing its only handle gives back exactly what its creation took |
| `FileSys.FileSystem.constructor` | pintos/src/filesys/filesys.c:95-103 | a formatted device satisfies the invariant, with an empty root directory, the free map file open, and exactly the two inode sectors and their data marked |
| `FileSys.FileSystem.FreeMapAllocate` | pintos/src/filesys/free-map.c:28-41 | first fit; if the free map file cannot be written, rolled back to exactly the old map |
| `FileSys.FileSystem.InodeFind` | pintos/src/filesys/inode.c:117-127 | finds the open inode of a sector exactly when there is one |
| `FileSys.FileSystem.InodeNew` | pintos/src/filesys/inode.c:129-141 | a new structure filled from the disk, one reference, invariant kept |
| `FileSys.FileSystem.InodeOpen` | pintos/src/filesys/inode.c:112-142 | one more reference to the only inode of the sector, or no change when memory runs out |
| `FileSys.FileSystem.InodeReopen` | pintos/src/filesys/inode.c:146-151 | one more reference, nothing else |
| `FileSys.FileSystem.InodeFree` | pintos/src/filesys/inode.c:164-186 | the last close of a file that was not removed changes no mark; it lives on if it has a name |
| `FileSys.FileSystem.InodeDestroy` | pintos/src/filesys/inode.c:164-186 | the last close of a removed file releases sectors that are all still marked, and leaves the rest in order |
| `FileSys.FileSystem.InodeClose` | pintos/src/filesys/inode.c:164-186 | one reference less; the last takes the structure and, if removed, the sectors |
| `FileSys.Destroyed` | pintos/src/filesys/inode.c:164-186 | what the last close of a removed file releases is marked, belongs to nobody else, and the invariant survives it |
| `FileSys.FileSystem.FileOpen` | pintos/src/filesys/file.c:18-34 | a new handle at position 0 takes over the caller’s reference; without memory the reference is dropped |
| `FileSys.FileSystem.FileReopen` | pintos/src/filesys/file.c:39-42 | an independent handle on the same inode |
| `FileSys.FileSystem.FileClose` | pintos/src/filesys/file.c:46-54 | withdraws the handle’s write denial and its reference; the last close frees a removed file |
| `FileSys.FileSystem.SetDeny` | pintos/src/filesys/file.c:119-141 | at most one denial per handle, counted in the inode, and the kernel’s assertions 0 < deny_write_cnt <= open_cnt hold |
| `FileSys.FileSystem.FileRead` | pintos/src/filesys/file.c:69-74 | min(size, length - position) bytes at the position, or without memory the whole sectors at the front of them, and the position moves past them |
| `FileSys.FileSystem.FileWrite` | pintos/src/filesys/file.c:95-100 | the same number of bytes written: a slice update of this file at the position, nothing while denied, no byte of any other live file changed |
| `FileSys.FileSystem.InodeWrite` | pintos/src/filesys/inode.c:258-318 | min(size, length - offset) bytes, or without memory the whole sectors at the front of them: a slice update of one live file that leaves the bytes of all others, and every inode, unchanged |
| `FileSys.WriteOutcome` | pintos/src/filesys/inode.c:258-318 | a write inside one file’s extent changes that slice of that file only |
| `FileSys.FileSystem.NewFile` | pintos/src/filesys/inode.c:73-106 | the least free sector for the inode, then the first run that fits for the data; if the second allocation fails the first is given back |
| `FileSys.HasRoomIff` | pintos/src/filesys/free-map.c:28-41 | there is room exactly when, besides the least free sector, a free run as long as the size needs is left |
| `FsModel.InodeLayout` | pintos/src/filesys/inode.c:81-92 | the bytes of an on-disk inode |
| `FileSys.WriteInode` | pintos/src/filesys/inode.c:81-101 | the inode sector holds start, length and magic, the data sectors zeros, no other sector changes |
| `FileSys.FileSystem.AddEntry` | pintos/src/filesys/filesys.c:51-55 | the new entry, wherever the scan put it, or the cleanup that releases the inode sector alone; a file whose entry is overwritten lives on only while it is open |
| `FileSys.AddOutcome` | pintos/src/filesys/filesys.c:46-59 | a successful add of a new file, misled or not, keeps every part of the invariant, and the file reads as zeros |
| `FileSys.FileSystem.CreateIn` | pintos/src/filesys/filesys.c:46-59 | outcome of create once the root directory is open, both ways |
| `FileSys.FileSystem.Create` | pintos/src/filesys/filesys.c:46-59 | for every pattern of failures: succeeds exactly when the directory opens, both allocations do and dir_add does; the file is on sectors free before and reads as zeros, and no other file’s bytes change; in a directory without duplicates the map gains exactly the name if and only if the scans did not mislead; on failure no mark is lost, and the free map is as before if and only if the file was to be empty or its sectors could not be had |
| `FileSys.CreateCanLeak` | pintos/src/filesys/filesys.c:54-55 | giving back the inode sector alone restores the free map if and only if the file was to be empty |
| `FileSys.FileSystem.CreateLeaks` | pintos/src/filesys/filesys.c:51-55 | every create of a nonempty file that gets its sectors but no entry leaves sectors marked that were free and belong to no live file |
| `FileSys.LeakASector` | pintos/src/filesys/filesys.c:46-59 | a run that does so: the same file created twice on a freshly formatted device |
| `FileSys.TakenName` | pintos/src/filesys/directory.c:151-178 | a taken, empty or overlong name, or a full directory, gets no entry |
| `FileSys.GrantedCreate` | pintos/src/filesys/filesys.c:46-59 | with all memory granted a create succeeds if and only if there is room and the name is new and fits |
| `FileSys.CreateRefinesIff` | pintos/src/filesys/filesys.c:46-59 | a successful create extends the map by exactly the name if and only if its scans were not misleading, and then every file stays alive |
| `FileSys.TidyCreate` | pintos/src/filesys/filesys.c:46-59 | such a create keeps names unique and removed flags exact |
| `FileSys.TidyRemove` | pintos/src/filesys/filesys.c:84-91 | a remove keeps names unique and removed flags exact |
| `FsModel.FreshPair` | pintos/src/filesys/free-map.c:28-41 | sectors free in the map belong to no live file, so a new file overlaps none, not even a removed one that is still open |
| `FsModel.AllocatedGrow` | pintos/src/filesys/free-map.c:28-41 | allocation keeps owned sets disjoint and marked |
| `FsModel.AllocatedShrink` | pintos/src/filesys/free-map.c:45-50 | a release takes nothing from another file, and what it releases was marked |
| `FsModel.AllocatedDrop` | pintos/src/filesys/inode.c:164-186 | a file that dies without giving its sectors back takes nothing from another |
| `FsModel.AcquireRelease` | pintos/src/filesys/free-map.c:28-50 | taking free sectors and giving them back restores the map exactly |
| `FsModel.OthersKeep` | pintos/src/filesys/inode.c:258-318 | writes inside one file’s extent leave every other file’s bytes alone |
| `FsModel.FreeWritesKeep` | pintos/src/filesys/inode.c:81-101 | writing free sectors disturbs no live file |
| `FsModel.CountedDeny` | pintos/src/filesys/inode.c:323-338 | denying and allowing keep deny_write_cnt equal to the denying handles and within open_cnt |
| `FsModel.CountedClose` | pintos/src/filesys/inode.c:164-186 | when the count reaches zero no handle refers to the inode any more |
| `FsModel.CountedNew` | pintos/src/filesys/inode.c:129-141 | a new inode for a sector without one keeps the counts exact |
| `FsModel.CountedHandOver` | pintos/src/filesys/file.c:18-34 | a reference becomes a handle: the count stays exact |
| `FsModel.LiveClose` | pintos/src/filesys/inode.c:164-186 | a file that is removed, or that no name leads to, dies at its last close; any other lives on |
| `FsModel.RootUndenied` | pintos/src/filesys/file.c:119-141 | no handle is on the root directory, so nobody denies writes to it |
| `FsModel.LiveErase` | pintos/src/filesys/directory.c:204-211 | erasing an entry and marking its open inode moves the file from listed to open-only |
| `FileSys.FileSystem.DirOpenRoot` | pintos/src/filesys/directory.c:35-58 | one reference to the root directory’s inode, or no change |
| `FileSys.FileSystem.DirFind` | pintos/src/filesys/directory.c:119-133 | the inode of the first visible entry with the name; none exactly when there is no such entry, or it is not open and memory is out |
| `FileSys.FileSystem.Open` | pintos/src/filesys/filesys.c:67-77 | a new handle on exactly the file found; succeeds if and only if the scan sees the name and memory is had for what is not open yet; failure changes no handle |
| `FileSys.FileSystem.EraseEntry` | pintos/src/filesys/directory.c:204-211 | erases that slot and marks that inode, together or not at all |
| `FileSys.FileSystem.EraseAndClose` | pintos/src/filesys/directory.c:200-216 | the removed file keeps its sectors if somebody has it open and loses them at once otherwise |
| `FileSys.FileSystem.DirRemove` | pintos/src/filesys/directory.c:185-216 | removes exactly the entry found; succeeds if and only if the scan sees the name, its inode is open or can be, and the write is possible |
| `FileSys.FileSystem.Remove` | pintos/src/filesys/filesys.c:84-91 | exactly that entry disappears, and success is characterised for every pattern of failures; an open file keeps its sectors, any other loses them; other files’ bytes unchanged |
| `FileSys.SucceedsAll` | pintos/src/filesys/filesys.c:84-91 | with all memory granted, open and remove succeed if and only if the name is listed |
| `FileSys.FailsOnlyIfAbsentIff` | pintos/src/filesys/directory.c:182-216 | the documented "fails only if there is no such name" holds if and only if the directory can be opened and written and every entry’s name leads, within the scan, to an inode that is open or can be |
| `FileSys.OpenMarkClose` | pintos/src/filesys/directory.c:200-216 | open, mark and close: an earlier opener keeps the file marked removed, otherwise it goes |
| `Directory.Lookup` | pintos/src/filesys/directory.c:92-112 | the loop finds the first visible in-use slot with the name |
| `Directory.FindIsLeast` | pintos/src/filesys/directory.c:92-112 | for every number of slots that can be read: the first of them with the name, if one has it |
| `Directory.FindIsMap` | pintos/src/filesys/directory.c:92-112 | with memory for the scan, lookup is lookup in the map from names to sectors |
| `Directory.Add` | pintos/src/filesys/directory.c:142-179 | the bytes written decode to the specified slots; nothing outside the directory changes |
| `Directory.AddedMeans` | pintos/src/filesys/directory.c:142-179 | in terms of the slots alone: the entry goes where the scan stopped, if the name is valid and seen in no slot |
| `Directory.AddRefinesIff` | pintos/src/filesys/directory.c:142-179 | a reported success extends the map by exactly the new name if and only if the name was absent and the chosen slot free |
| `Directory.AmpleAddRefines` | pintos/src/filesys/directory.c:142-179 | with memory for both scans that condition always holds |
| `Directory.AmpleAddFails` | pintos/src/filesys/directory.c:142-179 | add fails cleanly, and exactly when the name is bad or taken, the directory full or the write impossible |
| `Directory.ShortScansDoHarm` | pintos/src/filesys/directory.c:159-169 | two directories on which a scan cut short by lack of memory creates a duplicate name, or overwrites an entry |
| `Directory.Erase` | pintos/src/filesys/directory.c:204-207 | writes back the slot with its in-use flag clear |
| `Directory.EraseRefines` | pintos/src/filesys/directory.c:185-216 | erasing removes exactly that name from the map and keeps names unique |
| `Directory.ReadDir` | pintos/src/filesys/directory.c:222-236 | returns the next in-use entry’s name, skipping free slots, from any position; none exactly when no visible slot is left |
| `Directory.PatchSlot` | pintos/src/filesys/directory.c:172-175 | rewriting the 20 bytes of a slot replaces that slot and no other |
| `Directory.FillSlot` | pintos/src/filesys/directory.c:172-175 | the 20 bytes of an entry, field by field, which decode to it |
| `InodeIo.ReadAt` | pintos/src/filesys/inode.c:201-250 | the buffer receives exactly the slice of the file: min(size, length - offset) bytes, or the multiple of 512 below that when the bounce buffer cannot be had, from a sector boundary only |
| `InodeIo.WriteAt` | pintos/src/filesys/inode.c:258-318 | the device changes in exactly the slice written, of the same length; nothing while writes are denied |
| `InodeIo.TransferredMeans` | pintos/src/filesys/inode.c:207-218 | the number of bytes moved, in numbers |
| `InodeIo.SectorsExact` | pintos/src/filesys/inode.c:23-29 | just as many sectors as the bytes need |
| `Bytes.LittleEndian` | pintos/src/filesys/inode.c:16-23 | words are stored least significant byte first |
| `InodeIo.ReadChunk` | pintos/src/filesys/inode.c:210-245 | one iteration moves one chunk, with or without the bounce buffer |
| `InodeIo.WriteChunk` | pintos/src/filesys/inode.c:270-313 | one iteration updates one chunk; with the bounce buffer the rest of the sector is preserved |
| `InodeIo.ByteToSector` | pintos/src/filesys/inode.c:47-54 | the sector that holds the byte, none past the end |
| `InodeIo.UpdateWithin` | pintos/src/filesys/inode.c:258-318 | a slice update of the device inside the extent is a slice update of the file |
| `InodeIo.UpdateElsewhere` | pintos/src/filesys/inode.c:258-318 | and leaves any disjoint extent unchanged |
| `InodeIo.SectorUpdate` | pintos/src/filesys/inode.c:284-308 | replacing part of one sector is a slice update of the device |
| `Synch.RunsKeepInv` | pintos2/src/threads/synch.c:60-121 | every transition of every interleaving keeps the invariant |
| `Synch.NextKeeps` | pintos2/src/threads/thread.c:224-253 | one step: a call’s critical section, a timer interrupt, an interrupt’s sema_up or sema_try_down, a creation or an exit |
| `Synch.MutualExclusion` | pintos2/src/threads/synch.c:193-236 | over every run the lock’s semaphore value plus its owners is 1; holder, when set, is the owner; between calls the owner is the holder |
| `Synch.NoLostWakeup` | pintos2/src/threads/synch.c:61-121 | over every run, if threads sleep on a semaphore with units, the value is at most the number of woken threads about to look at it again, and one such thread is ready or running |
| `Synch.ElementOnOneList` | pintos2/src/threads/thread.c:224-253 | over every run a thread’s list element is on at most one of the ready list and the wait lists, once; sleepers are blocked |
| `Synch.WaitReturns` | pintos2/src/threads/synch.c:288-302 | cond_wait returns after exactly one signal for its own queue entry, with the lock held |
| `Synch.OnlyPcStep` | pintos2/src/threads/thread.c:542-617 | only a thread’s own transitions move its program counter |
| `Synch.SignalIsKept` | pintos2/src/threads/synch.c:288-322 | a signal sent before the waiter’s sema_down is kept; waiter semaphores are signalled only while they exist |
| `Synch.SignalsAreFifo` | pintos2/src/threads/synch.c:312-322 | the n-th signal on a condition goes to the n-th waiter |
| `Synch.BroadcastIsExact` | pintos2/src/threads/synch.c:331-338 | a broadcast, from call to return, calls sema_up for exactly the threads queued when it was called, each once and in the order of the queue, which it leaves empty |
| `Synch.BroadcastDuring` | pintos2/src/threads/synch.c:331-338 | throughout the broadcast the thread stays in its loop, whatever else happens |
| `Synch.BroadcastAccounts` | pintos2/src/threads/synch.c:331-338 | at every moment of a broadcast, those signalled, the one taken off the queue and those still queued make up the queue at the call |
| `Synch.QueueStill` | pintos2/src/threads/synch.c:312-338 | while a thread broadcasts nobody else changes the queue |
| `Synch.UpKeeps` | pintos2/src/threads/synch.c:109-121 | sema_up on a semaphore of its own, by a thread or an interrupt, keeps the invariant |
| `Synch.GiveKeeps` | pintos2/src/threads/synch.c:228-236 | the sema_up of lock_release and of cond_wait keeps it |
| `Synch.SignalKeeps` | pintos2/src/threads/synch.c:312-322 | so does the sema_up of a signaller on a waiter’s semaphore |
| `Synch.DownKeeps` | pintos2/src/threads/synch.c:61-76 | one test of the retry loop on a semaphore of its own keeps the invariant, taking a unit or going to sleep |
| `Synch.AcquireKeeps` | pintos2/src/threads/synch.c:193-202 | so does one test on a lock’s semaphore |
| `Synch.WaitDownKeeps` | pintos2/src/threads/synch.c:288-302 | and one on a waiter’s semaphore |
| `Synch.TryDownKeeps` | pintos2/src/threads/synch.c:210-223 | a successful lock_try_acquire keeps the invariant |
| `Synch.TryDownPlainKeeps` | pintos2/src/threads/synch.c:84-102 | sema_try_down by a thread keeps it |
| `Synch.TakeUnitKeeps` | pintos2/src/threads/synch.c:84-102 | and by an interrupt handler |
| `Synch.YieldKeeps` | pintos2/src/threads/thread.c:351-364 | yielding, by call or timer, keeps the invariant |
| `SynchCalls.UnitsConserved` | pintos2/src/threads/synch.c:60-121 | over every run a semaphore’s value is its initial value (1 for a lock) plus every sema_up, by a thread or an interrupt, minus every sema_down that went on and every sema_try_down that succeeded |
| `SynchCalls.UnitStep` | pintos2/src/threads/synch.c:60-121 | every step changes every semaphore by exactly the units it gives and takes |
| `SynchCalls.DownStep` | pintos2/src/threads/synch.c:61-76 | sema_down goes on exactly with a unit there; without one it sleeps at the end of the list, to test again |
| `SynchCalls.GiveWakes` | pintos2/src/threads/synch.c:109-121 | sema_up makes the first sleeper, and nobody else, ready |
| `SynchCalls.CallDoesItsDuty` | pintos2/src/threads/synch.c:193-338 | every call, from its start to its return, whatever else runs meanwhile, takes and gives exactly its units in order: sema_down, sema_up, sema_try_down, lock_acquire, lock_try_acquire, lock_release, cond_wait, cond_signal (to the first waiter, which leaves the queue) and cond_broadcast (to all) |
| `SynchCalls.CallProgress` | pintos2/src/threads/synch.c:193-338 | at every moment of a call its program counter tells what it has done |
| `SynchCalls.HolderAtReturn` | pintos2/src/threads/synch.c:193-302 | lock_acquire and cond_wait return with the thread as holder, lock_release with none |
| `SynchCalls.ReadyIsQueue` | pintos2/src/threads/thread.c:536-617 | threads join the ready list at its back, and the one that runs next is its front |
| `SynchCalls.NeverOvertaken` | pintos2/src/threads/thread.c:536-617 | over every run each step leaves a ready thread in its place, or one nearer, or running |
| `SynchCalls.SpawnWaits` | pintos2/src/threads/thread.c:168-214 | a new thread is the last of the ready ones |
| `SynchCalls.ExitIsLast` | pintos2/src/threads/thread.c:290-310 | a thread that exits is on no list and does not run |
| `Malloc.Heap.Run` | pintos/src/threads/malloc.c:90-264 | for every sequence of malloc, realloc and free on valid blocks: each call adds, moves or removes exactly one block, or none exactly when none is to be had; the heap stays sound, and the pages of other users stay theirs |
| `Malloc.Heap.Step` | pintos/src/threads/malloc.c:90-264 | one such call |
| `Malloc.InvariantMeans` | pintos/src/threads/malloc.c:90-294 | free_cnt is the number of the arena’s blocks on the free list and below blocks_per_arena; free lists have no duplicates; held blocks lie inside their pages, clear of the header, large enough and apart |
| `Malloc.Heap.Malloc` | pintos/src/threads/malloc.c:90-154 | for every 32-bit size: a block nobody held, from the smallest descriptor that serves the size, all others in place; none exactly for size 0, or when no block is listed and the pages are not to be had; what is returned holds the request if and only if it is at most 2^32 - 12 bytes |
| `Malloc.PagesSuffice` | pintos/src/threads/malloc.c:105-112 | where rounding up to pages wraps around: no pages at all, or one page for the last eleven sizes |
| `Malloc.DescFor` | pintos/src/threads/malloc.c:100-104 | the smallest descriptor whose blocks are large enough |
| `Malloc.Heap.MallocBig` | pintos/src/threads/malloc.c:105-120 | whole pages with room for the header |
| `Malloc.Heap.NewArena` | pintos/src/threads/malloc.c:125-146 | the first free page, cut into blocks, all listed in order |
| `Malloc.Heap.PopFront` | pintos/src/threads/malloc.c:148-153 | the front block leaves the list and the count follows |
| `Malloc.Heap.Free` | pintos/src/threads/malloc.c:219-264 | only the block goes; every block still held keeps its place and its bytes |
| `Malloc.Heap.FreeSmall` | pintos/src/threads/malloc.c:227-256 | block cleared to 0xcc and back at the front of the list; an arena without blocks in use goes back to the page pool |
| `Malloc.Heap.ReleaseArena` | pintos/src/threads/malloc.c:242-253 | every block of the arena is on the list when it is unlinked, and none is held |
| `Malloc.Unlink` | pintos/src/threads/malloc.c:247-251 | the loop removes exactly the arena’s blocks, each of which is there |
| `Malloc.Heap.FreeBig` | pintos/src/threads/malloc.c:257-262 | gives back to the pool exactly the pages the header counts |
| `Malloc.Heap.Realloc` | pintos/src/threads/malloc.c:195-214 | a new block exactly when malloc has one; it starts with the old one’s bytes, min(new_size, old block size) of them; other blocks unchanged; failure keeps the old block |
| `Malloc.CopyFitsIff` | pintos/src/threads/malloc.c:204-211 | the copy stays inside the new block if and only if the new size is at most 2^32 - 12 or the old block is no larger than one page holds |
| `Malloc.Heap.Copy` | pintos/src/lib/string.c:7-19 | copying between held blocks touches no third |
| `Malloc.Heap.constructor` | pintos/src/threads/malloc.c:72-85 | an empty heap over a pool that may have other users |
| `Malloc.Descriptors` | pintos/src/threads/malloc.c:72-85 | seven descriptors, 16 to 1024 bytes with 255 to 3 blocks, within the static array of ten |
| `Malloc.BlockToArena` | pintos/src/threads/malloc.c:268-294 | rounding a block’s address down finds its arena, and the alignment assertions hold |
| `Malloc.BlockInGroup` | pintos/src/threads/malloc.c:179-186 | a held block, with the size block_size reports, lies inside its pages after the header |
| `Malloc.LiveBlocksApart` | pintos/src/threads/malloc.c:286-294 | no two held blocks overlap |
| `Malloc.PopKeeps` | pintos/src/threads/malloc.c:148-153 | handing out the front block keeps counts, lists and holdings consistent |
| `Malloc.PushKeeps` | pintos/src/threads/malloc.c:238-242 | so does putting a block back; the count never exceeds blocks_per_arena |
| `Malloc.GrowKeeps` | pintos/src/threads/malloc.c:137-145 | so does adding an arena |
| `Malloc.ShrinkKeeps` | pintos/src/threads/malloc.c:242-253 | so does giving one back |
| `Malloc.FreeIdxBound` | pintos/src/threads/malloc.c:242-246 | a count equal to blocks_per_arena means that every block is on the list |
| `Palloc.Allocator.Run` | pintos/src/threads/palloc.c:71-142 | for every sequence of gets and frees, from both pools: each get adds the least free run of its pool and each free removes its group; what callers hold are pairwise disjoint, page-aligned groups inside their own pool and clear of both bitmaps |
| `Palloc.Allocator.AlwaysSound` | pintos/src/threads/palloc.c:71-142 | that is so in every valid state, for all live groups of both pools |
| `Palloc.LiveGroupInside` | pintos/src/threads/palloc.c:46-62 | a live group is aligned, inside its pool and off both bitmaps |
| `Palloc.LiveGroupsApart` | pintos/src/threads/palloc.c:46-62 | no two live groups, of one pool or of both, overlap |
| `Palloc.Allocator.constructor` | pintos/src/threads/palloc.c:46-62 | half of the free pages for the user pool, up to the limit; the pools and their bitmaps follow each other and fill the free memory |
| `Palloc.Allocator.GetMultiple` | pintos/src/threads/palloc.c:71-101 | a group not held before, the least free run of the chosen pool; a null pointer exactly for a count of 0 or when no run fits |
| `Palloc.Allocator.FreeMultiple` | pintos/src/threads/palloc.c:118-142 | the address alone leads back to the pool and index it came from, and exactly that group goes; a null pointer or a count of 0 changes nothing |
| `Palloc.PoolOf` | pintos/src/threads/palloc.c:175-182 | page_from_pool tells the pools apart |
| `Palloc.Pool.constructor` | pintos/src/threads/palloc.c:154-170 | page-aligned base after the bitmap, all pages free |
| `Palloc.BitmapFits` | pintos/src/threads/palloc.c:154-170 | just as many pages as the bitmap needs, and the bitmap that the pool builds fits in them |
| `Palloc.Pool.Take` | pintos/src/threads/palloc.c:81-85 | bitmap_scan_and_flip on the pool’s packed bitmap: the least free run, which meets no live group |
| `Palloc.Pool.Give` | pintos/src/threads/palloc.c:140-141 | bitmap_all is true for a live group, and exactly its bits are cleared in the packed bitmap |
| `Palloc.TakeTracks` | pintos/src/threads/palloc.c:81-85 | taking a free run keeps marks and live groups in step |
| `Palloc.FreeTracks` | pintos/src/threads/palloc.c:140-141 | freeing a live group clears marks that were set and keeps the rest in step |
| `Runs.FirstFitIsLeast` | pintos/src/lib/kernel/bitmap.c:297-311 | bitmap_scan’s answer is the least fitting run, none only if none fits |
| `Runs.FirstFitOfNothing` | pintos/src/lib/kernel/bitmap.c:313-327 | for a count of 0 the answer is the start argument, so the documented 0 if and only if start is 0 |
| `Runs.SetRunUndo` | pintos/src/lib/kernel/bitmap.c:321-327 | flipping a run back restores the sequence |
| `Bitmap.Bitmap.ScanAndFlip` | pintos/src/lib/kernel/bitmap.c:321-327 | finds the least fitting run and flips exactly it |
| `Bitmap.Bitmap.Scan` | pintos/src/lib/kernel/bitmap.c:297-311 | the loop computes the least fitting run |
| `Bitmap.Bitmap.SetMultiple` | pintos/src/lib/kernel/bitmap.c:219-229 | sets exactly the run |
| `Bitmap.Bitmap.Contains` | pintos/src/lib/kernel/bitmap.c:252-264 | whether some bit of the run has the value |
| `Bitmap.Bitmap.Set` | pintos/src/lib/kernel/bitmap.c:146-154 | one bit of the modelled sequence |
| `Bitmap.Bitmap.Mark` | pintos/src/lib/kernel/bitmap.c:158-167 | or-ing the mask sets one bit of the sequence |
| `Bitmap.Bitmap.Reset` | pintos/src/lib/kernel/bitmap.c:171-180 | and-ing the inverted mask clears one bit |
| `Bitmap.Bitmap.Flip` | pintos/src/lib/kernel/bitmap.c:186-195 | xor-ing the mask flips one bit |
| `Bitmap.Bitmap.Test` | pintos/src/lib/kernel/bitmap.c:199-204 | masking tests one bit of the sequence |
| `Bitmap.CombineWord` | pintos/src/lib/kernel/bitmap.c:36-70 | combining one word with a bit mask changes one bit of the packed sequence |
| `Bitmap.WordsExact` | pintos/src/lib/kernel/bitmap.c:49-54 | just as many words as the bits need |
| `Bits.MaskTest` | pintos/src/lib/kernel/bitmap.c:44-47 | a word masked with one bit is nonzero exactly when the bit is set |
| `Bits.BitwiseBits` | pintos/src/lib/kernel/bitmap.c:44-47 | the word operations act bit by bit |
| `Arithmetic.Udiv64` | pintos/src/lib/arithmetic.c:78-127 | for all 64-bit n and d: floor(n/d), and no divl traps unless d is zero |
| `Arithmetic.UdivNarrow` | pintos/src/lib/arithmetic.c:80-112 | long division in base 2^32 |
| `Arithmetic.UdivWide` | pintos/src/lib/arithmetic.c:113-126 | the normalised estimate with its one correction |
| `Arithmetic.DivlTraps` | pintos/src/lib/arithmetic.c:26-37 | the instruction traps exactly on zero or a quotient over 32 bits |
| `Arithmetic.Nlz` | pintos/src/lib/arithmetic.c:42-73 | the shift that brings the top bit to bit 31 |
| `Arithmetic.NlzUnique` | pintos/src/lib/arithmetic.c:42-73 | there is only one such shift |
| `Arithmetic.QuotientBracket` | pintos/src/lib/arithmetic.c:119-125 | a slightly smaller divisor overshoots the quotient by at most one |
| `Arithmetic.EstimateError` | pintos/src/lib/arithmetic.c:119-125 | the error bound of the estimate, for every dividend |
| `Arithmetic.EstimateBracket` | pintos/src/lib/arithmetic.c:121-123 | one divl and two shifts give the quotient or one more, and the divl does not trap |
| `Arithmetic.Corrected` | pintos/src/lib/arithmetic.c:124-124 | the wrap-around comparison picks the right one of the two |
| `Arithmetic.NarrowNoTrap` | pintos/src/lib/arithmetic.c:97-111 | the two-digit division is exact and does not trap |
| `Arithmetic.Umod64` | pintos/src/lib/arithmetic.c:132-135 | the low 32 bits of the remainder |
| `Arithmetic.UmodExactIff` | pintos/src/lib/arithmetic.c:132-135 | that is the remainder for all dividends if and only if d <= 2^32 |
| `Arithmetic.Sdiv64` | pintos/src/lib/arithmetic.c:140-146 | truncating division, except that the most negative value over -1 wraps |
| `Arithmetic.TruncDivRange` | pintos/src/lib/arithmetic.c:140-146 | that is the only quotient that is not representable |
| `Arithmetic.TruncDivMeaning` | pintos/src/lib/arithmetic.c:140-154 | what truncation means: the remainder is smaller than the divisor and has the dividend’s sign |
| `Arithmetic.Smod64` | pintos/src/lib/arithmetic.c:151-154 | the truncating remainder, narrowed to 32 signed bits |
| `Arithmetic.SmodExactIff` | pintos/src/lib/arithmetic.c:151-154 | exact for all dividends if and only if the divisor’s absolute value is at most 2^31 |
| `HashTable.Table.Insert` | pintos/src/lib/kernel/hash.c:99-110 | adds the element if no equal one is present, else returns that one; the table stays valid at the ideal size |
| `HashTable.Table.Replace` | pintos/src/lib/kernel/hash.c:115-127 | swaps out the equal element, if any |
| `HashTable.Table.Find` | pintos/src/lib/kernel/hash.c:132-135 | an equal element exactly when the table holds one |
| `HashTable.Table.Delete` | pintos/src/lib/kernel/hash.c:145-154 | removes the equal element, and none remains |
| `HashTable.Table.FindElem` | pintos/src/lib/kernel/hash.c:306-326 | searching one bucket suffices |
| `HashTable.Table.Rehash` | pintos/src/lib/kernel/hash.c:352-413 | loses and duplicates nothing, whether or not its allocation succeeds; on success the bucket count is the largest power of two not above max(4, elem_cnt/2) |
| `HashTable.Table.Moved` | pintos/src/lib/kernel/hash.c:394-410 | the moving loops preserve the bag and put every element in its bucket |
| `HashTable.Table.MoveBucket` | pintos/src/lib/kernel/hash.c:397-409 | so does the inner one |
| `HashTable.BestCount` | pintos/src/lib/kernel/hash.c:364-372 | the bit-twiddling loop finds that power of two |
| `HashTable.TurnOffReduces` | pintos/src/lib/kernel/hash.c:328-333 | x & (x - 1) clears exactly the lowest one bit |
| `HashTable.ReducedBracket` | pintos/src/lib/kernel/hash.c:330-340 | only powers of two become zero; anything else keeps its top bit |
| `HashTable.MaskIsMod` | pintos/src/lib/kernel/hash.c:306-310 | masking with bucket_cnt - 1 is the remainder, so the bucket exists |
| `HashTable.LargestUnique` | pintos/src/lib/kernel/hash.c:364-372 | the ideal bucket count is unique |
| `HashTable.Table.constructor` | pintos/src/lib/kernel/hash.c:25-42 | an empty, valid table of four buckets |
| `HashTable.Table.First` | pintos/src/lib/kernel/hash.c:200-208 | nothing seen yet |
| `HashTable.Table.Next` | pintos/src/lib/kernel/hash.c:219-235 | one element not returned before, or the end when all have been |
| `HashTable.Table.VisitAll` | pintos/src/lib/kernel/hash.c:182-235 | the iteration idiom visits every element exactly once |
| `HashTable.Table.TakenOut` | pintos/src/lib/kernel/hash.c:115-154 | taking out the element equal to e leaves none equal to it |
| `HeapSort.Sort` | pintos/src/lib/stdlib.c:132-152 | a sorted permutation, for every length and every total preorder |
| `HeapSort.Heapify` | pintos/src/lib/stdlib.c:97-123 | restores the heap from one position down, moving only elements of that range |
| `HeapSort.BuildHeap` | pintos/src/lib/stdlib.c:142-144 | a heap of the same elements |
| `HeapSort.LargestOf` | pintos/src/lib/stdlib.c:103-112 | the largest of a node and its children |
| `HeapSort.BinarySearch` | pintos/src/lib/stdlib.c:185-207 | finds an equal element exactly when one exists |
| `HeapSort.RootIsMax` | pintos/src/lib/stdlib.c:146-151 | the root of a heap is a maximum |
| `HeapSort.SiftStep` | pintos/src/lib/stdlib.c:119-121 | one swap moves the only violation down to the child |
| `HeapSort.ExtractStep` | pintos/src/lib/stdlib.c:146-151 | swapping out the root and sifting extends the sorted back by one |
| `HeapSort.DoSwap` | pintos/src/lib/stdlib.c:67-79 | exchanges two elements and nothing else |
| `PageDir.Directory.SetPage` | pintos/src/userprog/pagedir.c:99-119 | maps exactly one page, by an entry with that frame, user access and that permission; every other translation and the kernel’s part unchanged; fails only without memory for a table; with pages not in use it shares nothing |
| `PageDir.Directory.GetPage` | pintos/src/userprog/pagedir.c:126-137 | frame plus offset, or null for an unmapped page |
| `PageDir.Directory.ClearPage` | pintos/src/userprog/pagedir.c:144-157 | unmaps exactly one page and keeps the other bits of its entry; shares nothing |
| `PageDir.Directory.LookupCreate` | pintos/src/userprog/pagedir.c:57-86 | a new table changes no translation |
| `PageDir.Directory.ReadEntry` | pintos/src/userprog/pagedir.c:57-86 | the entry for a page, without creating a table |
| `PageDir.Directory.Destroy` | pintos/src/userprog/pagedir.c:28-48 | frees, in order, each mapped page’s frame, each table and the directory; no address twice if and only if no frame is mapped twice or is also a table or the directory |
| `PageDir.FreedOnceIff` | pintos/src/userprog/pagedir.c:28-48 | the same for the list of freed addresses, both directions |
| `PageDir.AddressesApart` | pintos/src/userprog/pagedir.c:28-48 | different things to free are at different addresses: page tables by construction, frames if unshared |
| `PageDir.StaysUnshared` | pintos/src/userprog/pagedir.c:99-119 | mapping a frame that is not in use, with a new table that is not in use, keeps everything unshared |
| `PageDir.Directory.FreeTable` | pintos/src/userprog/pagedir.c:37-46 | one directory entry’s frames and table |
| `PageDir.Directory.constructor` | pintos/src/userprog/pagedir.c:17-23 | a copy of the kernel’s directory: no user page is mapped and nothing is shared |
| `PageDir.EntryFields` | pintos/src/threads/pte.h:71-104 | or-ing flags onto an aligned address and masking them off gives the address back |
| `PageDir.OrIsSum` | pintos/src/threads/pte.h:71-98 | address and flag bits do not meet |
| `PageDir.AndDropsFlags` | pintos/src/threads/pte.h:78-104 | masking with PTE_ADDR drops the flags |
| `PageDir.PteIs` | pintos/src/threads/pte.h:96-104 | a made entry is present, a user page’s, and has its page and permission |
| `PageDir.NewTable` | pintos/src/userprog/pagedir.c:69-78 | linking a zeroed table keeps the structure and every entry |
| `PageDir.WriteEntry` | pintos/src/userprog/pagedir.c:84-85 | writing one entry changes one page’s entry: tables are not shared |
| `PageDir.AddressSplit` | pintos/src/threads/pte.h:32-39 | directory and table index of a user address |
| `ElfLoad.ValidMeans` | pintos/src/userprog/process.c:326-366 | the wrapping checks accept exactly nonempty user ranges above page 0 with matching page offsets |
| `ElfLoad.PageArithmetic` | pintos/src/userprog/process.c:271-293 | read_bytes and zero_bytes never under- or overflow, are whole pages together, and only user pages are meant |
| `ElfLoad.Process.LoadSegment` | pintos/src/userprog/process.c:383-425 | succeeds exactly when every page is vacant, its frame and table can be had, and its part of the file is there and can be read; then the pages hold file bytes and then zeros; otherwise it stops at the first page for which that fails |
| `ElfLoad.Process.LoadOne` | pintos/src/userprog/process.c:271-300 | succeeds exactly when the header is valid and all its pages load; the segment is then in memory byte for byte |
| `ElfLoad.Process.LoadSegments` | pintos/src/userprog/process.c:245-302 | succeeds exactly when no header is refused and every loadable one loads in turn; all loadable segments are then in memory at once, and only user pages were mapped |
| `ElfLoad.LoadIff` | pintos/src/userprog/process.c:245-302 | which is if and only if none is refused, each loadable one is valid and loads on its own, and no two share a page |
| `ElfLoad.FullRead` | pintos/src/userprog/process.c:402-407 | a read is not short exactly when the file has the bytes, and memory is had unless it is of whole sectors |
| `ElfLoad.SegmentMeans` | pintos/src/userprog/process.c:271-297 | byte k at p_vaddr is file byte p_offset + k below p_filesz and zero from there to p_memsz |
| `ElfLoad.SegmentStays` | pintos/src/userprog/process.c:457-465 | later segments do not disturb earlier ones |
| `ElfLoad.Process.InstallPage` | pintos/src/userprog/process.c:457-465 | never replaces a mapping |
| `ArgvStack.BuildStack` | pintos2/src/userprog/process.c:120-164 | for every command line whose image fits, the page holds exactly the image and nothing below it changes |
| `ArgvStack.StackReadsBack` | pintos2/src/userprog/process.c:126-163 | argv[i] read from the stack is the i-th space-separated word of the command line |
| `ArgvStack.ReadHead` | pintos/src/lib/user/entry.c:6-10 | return address 0, argc, argv, a null argv[argc], word alignment |
| `ArgvStack.ReadArgument` | pintos2/src/userprog/process.c:145-152 | each pointer leads to its string, above the vectors and below the top |
| `ArgvStack.PushArguments` | pintos2/src/userprog/process.c:144-152 | the second loop writes strings and pointers |
| `ArgvStack.CountArguments` | pintos2/src/userprog/process.c:126-131 | the first loop computes number and total length |
| `ArgvStack.StrtokR` | pintos/src/lib/string.c:235-275 | cuts off the first token in place and continues with the rest |
| `ArgvStack.TokensCover` | pintos/src/lib/string.c:201-233 | tokens are nonempty, free of delimiters, and together everything that is not one, in order |
| `ArgvStack.TokensOfLine` | pintos/src/lib/string.c:201-233 | joining words by spaces and cutting gives the words back |
| `ArgvStack.Strlen` | pintos/src/lib/string.c:293-302 | distance to the terminator |
| `ArgvStack.StrLenSnoc` | pintos2/src/userprog/process.c:126-131 | each argument takes its bytes and a terminator |
| `Ustar.ParseMade` | pintos/src/lib/ustar.c:83-227 | parsing a made header returns the stripped name, the type and the size (0 for a directory); a regular file’s size survives if and only if it is not negative |
| `Ustar.TamperDetected` | pintos/src/lib/ustar.c:37-54 | changing any one byte outside the checksum field of an accepted header makes it rejected |
| `Ustar.ChksumFieldChange` | pintos/src/lib/ustar.c:200-207 | inside the field a change goes unnoticed exactly when the field reads as the same number |
| `Ustar.MakeHeader` | pintos/src/lib/ustar.c:83-118 | the whole 512-byte layout; fails exactly when the stripped name has more than 99 bytes |
| `Ustar.MadeLiterals` | pintos/src/lib/ustar.c:99-112 | the bytes of mode, owner, group, time, magic, version and owner names |
| `Ustar.PutFields` | pintos/src/lib/ustar.c:99-112 | every field but the checksum |
| `Ustar.PutNumbers` | pintos/src/lib/ustar.c:99-107 | the name and the number fields in front of the checksum |
| `Ustar.PutText` | pintos/src/lib/ustar.c:107-112 | the fields behind the checksum |
| `Ustar.ParseHeader` | pintos/src/lib/ustar.c:182-227 | check by check, in the source’s order |
| `Ustar.AcceptedIff` | pintos/src/lib/ustar.c:182-227 | which headers are accepted, field by field, and what the entry is |
| `Ustar.ErrorOf` | pintos/src/lib/ustar.c:182-227 | the first failing check gives the error |
| `Ustar.EofIff` | pintos/src/lib/ustar.c:190-197 | a header of zeros, and nothing else, ends the archive |
| `Ustar.StripMeans` | pintos/src/lib/ustar.c:66-73 | a safe name, a suffix or ".", safe names unchanged, idempotent |
| `Ustar.StripExact` | pintos/src/lib/ustar.c:66-73 | exactly what is left once all leading "/", "./" and "../" are gone, with "." for an empty rest or ".." |
| `Ustar.Strip` | pintos/src/lib/ustar.c:66-73 | the loop computes it |
| `Ustar.ParseOctalField` | pintos/src/lib/ustar.c:130-162 | value of the leading digits, failing on overflow, bad or missing characters |
| `Ustar.ParseIff` | pintos/src/lib/ustar.c:130-162 | a field is read exactly if it is octal digits, at least one, and a space or null, with a value below 2^32 |
| `Ustar.FieldRoundTrip` | pintos/src/lib/ustar.c:106-106 | a number printed in a fixed-width octal field is read back |
| `Ustar.CalculateChksum` | pintos/src/lib/ustar.c:37-54 | the sum with the field as spaces, without wrap-around |
| `Ustar.SumChange` | pintos/src/lib/ustar.c:37-54 | the sum sees every byte outside the field and only those |
| `Ustar.SumOfZeros` | pintos/src/lib/ustar.c:37-54 | a header of zeros sums to eight spaces |
| `Ustar.FormatOctal` | pintos/src/lib/stdio.c:470-547 | zero-padded octal digits of the value |
| `Ustar.AccumulateDigits` | pintos/src/lib/stdio.c:501-522 | the 64-byte buffer never overflows |
| `Ustar.IsAllZeros` | pintos/src/lib/ustar.c:167-173 | whether every byte is zero |
| `Donation.Scheduler.PriorityDonation` | pintos/src/threads/synch.c:218-245 | terminates on every wait-for graph; computes the walk and leaves the donor alone |
| `Donation.DonateExact` | pintos/src/threads/synch.c:218-245 | changes a thread exactly when the chain reaches it, once, through the lock of its first visit |
| `Donation.ReachedRecord` | pintos/src/threads/synch.c:218-245 | the whole record of a thread first reached: donor’s priority, original priority saved at level 0, and the lock listed and counted as a level unless it was listed |
| `Donation.UnreachedRecord` | pintos/src/threads/synch.c:218-245 | any other thread keeps its record |
| `Donation.OriginalKept` | pintos/src/threads/synch.c:218-245 | a second donor does not overwrite the saved priority |
| `Donation.OnlyRaises` | pintos/src/threads/synch.c:218-245 | priorities only rise, only to the donor’s, only below the nesting limit; the first donation saves the original priority, each new lock counts one level |
| `Donation.CoveredIff` | pintos/src/threads/synch.c:218-260 | a thread ends at least as high as the donor if and only if it was already or nothing stops the walk before it |
| `Donation.MonotoneChainCovered` | pintos/src/threads/synch.c:218-260 | on a monotone chain below the nesting limit every holder ends at least as high |
| `Swap.Store.Run` | pintos2/src/vm/swap.c:95-142 | over every run the calls return what per-key queues return, slots and entries stay in step; it ends early only at a panic or at a read that keeps the lock |
| `Swap.RoundTrip` | pintos2/src/vm/swap.c:95-142 | a page comes back with its exact bytes after any swaps under other keys if and only if it is the oldest of its key, in particular when no live entry shares the key |
| `Swap.Store.FrameToDisk` | pintos2/src/vm/swap.c:95-118 | appends the page to its key’s queue; panics exactly when no slot is empty |
| `Swap.Store.DiskToFrame` | pintos2/src/vm/swap.c:122-142 | takes the oldest page of the key and frees its slot; without one it returns with the lock held |
| `Swap.Store.FindEmpty` | pintos2/src/vm/swap.c:53-64 | the least empty slot, marked, or a number out of range |
| `Swap.Store.WritePage` | pintos2/src/vm/swap.c:110-115 | eight sectors, and no other, hold the page |
| `Swap.Store.ReadPage` | pintos2/src/vm/swap.c:132-137 | the page’s 4096 bytes |
| `Swap.Store.constructor` | pintos2/src/vm/swap.c:37-50 | a slot for every eight sectors, all empty, all queues empty |
| `Swap.InsertKeeps` | pintos2/src/vm/swap.c:67-91 | a slot is marked in use exactly when one live entry owns it |
| `Swap.DeleteKeeps` | pintos2/src/vm/swap.c:188-193 | also after an entry is deleted |
| `Swap.InsertQueues` | pintos2/src/vm/swap.c:67-118 | no other queue changes on a write |
| `Swap.DeleteQueues` | pintos2/src/vm/swap.c:122-193 | no other queue changes on a read |
| `Swap.EntriesInside` | pintos2/src/vm/swap.c:67-91 | live windows are inside the device and on slots marked in use |
| `Swap.WindowsApart` | pintos2/src/vm/swap.c:110-115 | windows of different slots do not meet |
| `Swap.OtherKeys` | pintos2/src/vm/swap.c:163-185 | operations on other keys leave a key’s queue alone |

## Left out

- FileSys.FileSystem.FreeMapAllocate: the on-disk copy of the free map (`bitmap_read`, `bitmap_write`) is not modelled; whether its write succeeds is a parameter.
- FileSys.FileSystem.constructor: formatting is modelled for a device that is large enough; the panics for a smaller one are not.
- Palloc.Allocator.GetMultiple: page contents (`PAL_ZERO`) and `PAL_ASSERT` panics are not modelled.
- Palloc.Allocator.FreeMultiple: the 0xcc fill is not modelled, and a group is given back whole, as it was obtained.
- Palloc.Allocator.Run: a free is of a group that is held, or of a null pointer; the source stops the kernel on anything else.
- Malloc.Heap.Malloc: calls are serialised, as the descriptor locks make them.
- Malloc.Heap.Realloc: a call whose copy overruns the new block (`Malloc.CopyFits` is false) overwrites memory of others; nothing is promised for it, and `Malloc.Heap.Run` does not make it.
- Malloc.Heap.FreeSmall: arena headers and free-list links are fields of the model, not bytes of the page.
- HeapSort.DoSwap: exchanges elements; the byte loop over their representation is not modelled.
- HashTable.Table.constructor: a failing `hash_init`, `hash_clear` with a destructor and the FNV hash functions are not modelled; a lawful hash and comparison are the users' promise.
- Ustar.FormatOctal: the sign, `#`, grouping, precision and left-justification branches of `format_integer`, which the archive code does not use, are not modelled.
- ArgvStack.BuildStack: command lines whose image does not fit the page write below it in the source; they are excluded, as nothing is promised for them.
- ElfLoad.Process.LoadSegments: reading and checking the ELF header and decoding program headers from bytes are not modelled; the page directory enters as the map that `PageDir` implements.
- PageDir.Directory.ClearPage: TLB invalidation, dirty and accessed bits are not modelled.
- Swap.Store.FrameToDisk: memory for the entry itself is assumed, as the source assumes it; the debugging dump is left out.
- Donation.Scheduler.PriorityDonation: `priority_restoration` and donation invariants over whole runs, whose bookkeeping in the source is not consistent.
- Virtual-memory eviction and page faults, `swap_entry_delete_by_tid`, process parent and child handling, the timer's sleep queue, partition tables, device drivers, boot code and assembly.
- `calloc`, `hash_apply`, `bitmap_count` and other members that would only repeat the proofs above.
