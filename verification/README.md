# xv6 kernel port: models and proofs

Dafny models of the parts of this xv6 port in which something can go subtly wrong,
and proofs of what they guarantee. `dafny verify dfyconfig.toml` checks them all.

## What is modelled

**Storage.** `BufferCache` is the disk as an array of sectors with its write
history, and the cache with its circular LRU list. `RedoLog` is the log on top of
it: a class whose state includes the home sectors as the running transaction sees
them. A crash is a choice of one disk image of the history, a boot starts from
nothing else. `CrashSafety` puts whole runs together.

**Files.** `Layout`, `Ownership` and `Inodes` are the on-disk structures, the
invariant that each block in use is metadata or has exactly one owner, and
allocation; `FileData` says what a file's bytes are, `FileIO`, `FileWrite` and
`Truncation` read, write and free them, all through the log. `Names` and
`Directories` treat directories as finite maps and paths as walks along them.
`Mkfs` and `MakeImage` build the first image, and `FirstBoot` starts the kernel
on it.

**Processes.** `Processes` is the process table and the scheduler, one method for
each step between two releases of the table's lock; `Pipes` is the ring with its
sleeping and waking, `PipeRuns` a pipe among all other steps; `Descriptors` has the
open files and their reference counts, and `Machine` joins process table and descriptors. Any order of calls is an
interleaving on the single CPU.

**Memory.** `UserHeap` is the user-level allocator, `Pages` the kernel's page
allocator with two-level page tables, `UserCopy` copying to and from user addresses.

**Programs.** `ShellGrammar` and `Shell` are the shell's parser over tokens and
over characters, `ShellRelation` the grammar as a relation, `Windows` the window manager's clipping, `Regex` grep's matcher.

`Base`, `Blocks` and `Sets` are small tools. A method that the source writes as a loop over
mutable state is a method here, proved against a specification; panics are
preconditions that callers are proved to meet, unless stated otherwise.

## What the code does not guarantee

- `allocuvm` and `copyuvm` lose a page frame exactly if the last free frame goes to
  a page whose second-level table is missing (`Pages.Starves`, vm.c:274, vm.c:363-364).
- `allocuvm` moreover reports success, with the last page unmapped, exactly if that
  page is the last one wanted (`Pages.Misreports`, `Pages.FalseSuccess`, vm.c:266-276);
  a later `fork` of the process reaches the panic in `copyuvm` (vm.c:355-356).
- A writer that is killed with more than 512 bytes to write, or that finds the read
  end closed, leaves readers asleep beside a full ring (`Pipes.Pipe.LosesWakeup`,
  pipe.c:86-89). Order and content of the bytes are not affected.
- `mkfs` gives the root directory a hole exactly if its entries fill its last block
  (`Mkfs.Image.FixRoot`, `FirstBoot.HoleExample`, tools/mkfs.c:152-157).
- `balloc` hands out a block of the log area, whose blocks `mkfs` leaves unmarked,
  exactly if no home block is free and some block there is (`Inodes.Fs.Balloc`, outcome
  `LogArea`; `FirstBoot.FullDisk`; fs.c:61-72).
- `mkfs` accepts names that agree in their first 14 characters; exactly then the root
  directory has duplicates (`MakeImage.Make`, tools/mkfs.c:139-142).
- `exit`, `chdir` and the path walk call `iput` outside a transaction (proc.c:198,
  sysfile.c:373, fs.c:625-640). If that drops the last reference to an unlinked inode,
  the panic of `log_write` outside a transaction is reached (log.c:167-168);
  `Truncation.IputLast` holds inside a transaction only.
- `malloc` is right for requests up to 0x7FFFFFF0 bytes; above that `sbrk` gets zero
  or a negative number, except for the seven largest requests, whose blocks are too
  small (`UserHeap.SbrkRightIff`, `UserHeap.AdequateIff`).
- `uva2ka`, and so `copyout` and `copyin`, follow a null pointer exactly if the
  address has no second-level table (`UserCopy.Uva2ka`, outcome `Fault`, vm.c:376-381).
  The frame buffer driver hands over user addresses unchecked (framebuffer.c:319,
  framebuffer.c:340), and above the user bound the directory index leaves the directory.
- `compute_visible_rects` overruns its arrays exactly if some round yields more than
  32 rectangles (`Windows.TooMany`); with at most three windows it never does.

## Model

| member | source | states |
|---|---|---|
| `BufferCache.Disk.Iderw` | memide.c:37-58 | a dirty buffer is written to its sector and becomes clean, a clean one is read from it; either way it becomes valid, and the history of the disk grows by one image per write |
| `BufferCache.Bcache.constructor` | bio.c:39-57 | all NBUF buffers stand on the circular list, and none of them stands for a real sector |
| `BufferCache.Bcache.Bget` | bio.c:62-95 | one pass under the lock: the sector's buffer if it has a free one; a wait exactly if its buffer is busy; otherwise the least recently released buffer that is neither busy nor dirty; the panic exactly if there is none |
| `BufferCache.Bcache.Bread` | bio.c:98-107 | the held buffer contains what a reader must see: the cached copy if there is one, else the disk; a wait or a panic exactly where bget has one, and then nothing has changed |
| `BufferCache.Bcache.BreadWait` | bio.c:62-107 | the same across any number of sleeps in which other processes change the cache: the content is that of the moment at which the buffer is obtained |
| `BufferCache.Bcache.Bwrite` | bio.c:110-117 | a held buffer's data reach its sector in one sector write |
| `BufferCache.Bcache.Brelse` | bio.c:121-140 | the buffer is free, is the most recently released one, and stands first on the list; the list is still a circular permutation of all buffers; the cache stays coherent with the disk exactly if the buffer was saved or is pinned |
| `BufferCache.Unlink` | bio.c:129-130 | the two assignments take a node at any position out of the circle and keep the order of the rest |
| `BufferCache.PushFront` | bio.c:131-134 | the four assignments put a node that is off the list right behind the header |
| `BufferCache.SortedToFront` | bio.c:129-134 | moving the buffer released now to the front keeps the list ordered by the time of the last release |
| `RedoLog.InstallingRecovers` | log.c:70-83 | installing any prefix of the logged blocks does not change what the disk recovers to, so a crash during recovery is harmless, however often |
| `RedoLog.Log.constructor` | log.c:54-67 | after a boot the home sectors are what the disk found recovers to, the log is empty, and the transaction interface may be used |
| `RedoLog.Log.ReadHead` | log.c:87-97 | the in-memory header becomes the one on the disk |
| `RedoLog.Log.WriteHead` | log.c:103-114 | one sector write after which the disk's header is the one in memory |
| `RedoLog.Log.InstallTrans` | log.c:71-83 | one sector write for each logged block, in order; the disk image after the k-th has exactly the first k blocks installed; pinned buffers come unpinned |
| `RedoLog.Log.RecoverFromLog` | log.c:117-123 | the home sectors become what the disk recovers to, whatever well-formed log the disk holds |
| `RedoLog.Log.BeginTrans` | log.c:126-134 | a free log is taken, and the disk image at that moment is the one the transaction is atomic against; a wait exactly if the log is taken |
| `RedoLog.Log.LogWrite` | log.c:161-182 | the block is appended to the log, or replaces the block logged for that sector before; its buffer is pinned; no home sector changes on the disk |
| `RedoLog.Log.Read` | bio.c:98-107 | inside a transaction a reader sees the home sectors as the transaction has changed them, not as they are on the disk |
| `RedoLog.Log.CommitTrans` | log.c:137-150 | there is one sector write such that every disk image of the transaction before it recovers to the old home sectors, and every one from it on to the new ones; afterwards the log is empty and the new home sectors are on the disk |
| `CrashSafety.Transaction` | log.c:126-182 | a transaction of any list of updates that fits the log and the buffers: the home sectors become the old ones with the updates applied in order, atomically with respect to a crash after any sector write |
| `CrashSafety.Boot` | log.c:54-67 | recovery from any crash image reaches the state that the image recovers to, and a crash in the middle of it does not change that state |
| `CrashSafety.CrashRun` | log.c:54-182 | a transaction, a crash after any of its sector writes, then any number of boots each of which may crash as well: the system comes up with all the home sectors as before the transaction or all as logged |
| `Inodes.Fs.Readsb` | fs.c:28-35 | the superblock |
| `Inodes.Fs.Bzero` | fs.c:39-47 | block bno reads as zeros inside the transaction, and is logged |
| `Inodes.Fs.Balloc` | fs.c:53-77 | the first block that is free in the bitmap is marked and zeroed, and nothing else changes; a block of the log area is handed out exactly if no home block is free and some block of the log area is; the panic exactly if the whole bitmap is set |
| `Inodes.AllocSlotOk` | fs.c:366-378 | giving a fresh block to an empty direct or indirect slot keeps the invariant: marked blocks are exactly the metadata and the blocks owned by exactly one slot of one inode |
| `Inodes.AllocEntryOk` | fs.c:375-385 | the same for an empty entry of the indirect block |
| `Inodes.Fs.Bmap` | fs.c:360-388 | the address of a file block; for a block that has one nothing changes at all, so nothing is logged; otherwise a block of zeros is added and all other blocks of all files keep address and content |
| `FileIO.Iupdate` | fs.c:205-220 | the inode on the disk equals the one in memory; all files keep their bytes; one sector is logged |
| `FileIO.Readi` | fs.c:439-463 | the bytes of the file in that range, cut at its end; -1 exactly for an offset beyond the end or one that wraps; nothing is allocated or logged |
| `FileData.WriteBytes` | fs.c:485-491 | storing a block at the address of one file block changes the bytes of that block of that file only |
| `FileIO.Writei` | fs.c:468-498 | the file's bytes are the old ones overwritten, every other file keeps its inode and all its bytes; -1 exactly for a gap, a wrap or more than the maximal size, and then nothing has changed; no holes; the number of logged sectors is bounded |
| `FileIO.WriteChunk` | file.c:131-157 | one transaction of filewrite: atomic with respect to a crash, at most seven logged sectors, no panic of the log or the cache, never a short write |
| `FileWrite.Filewrite` | file.c:120-161 | a write of any length: the file is overwritten by the prefix that the finished transactions cover; a crash anywhere leaves the state between two of them, and each such state is a consistent file system without holes; -1 exactly if the next piece would leave a gap or exceed the maximal size |
| `Truncation.Bfree` | fs.c:81-96 | the block's bit is cleared and nothing else changes; the panic on a free block is excluded by the ownership invariant of its callers |
| `Truncation.EmptiedOk` | fs.c:396-423 | an inode without addresses whose blocks are unmarked satisfies the ownership invariant, and no other file has changed |
| `Truncation.Itrunc` | fs.c:396-423 | the file is empty, exactly its blocks are free again, all other files keep their bytes, and each bfree finds its block in use |
| `Truncation.IputLast` | fs.c:320-339 | dropping the last reference to an unlinked inode frees its blocks and the inode |
| `Truncation.CloseUnlinked` | file.c:75-79 | that, inside its transaction, is atomic with respect to a crash |
| `Names.Namecmp` | fs.c:504-507 | two names are equal exactly if they agree up to their first NUL or their first 14 characters |
| `Names.Strncpy` | fs.c:559 | 14 bytes that hold the same name |
| `Names.Linked` | fs.c:551-562 | an entry written for a new name into a free place, or at the end, extends the directory's map by exactly that name, and there are still no duplicates |
| `Names.SkipElem` | fs.c:567-605 | one element of the path, truncated, and a rest that has the remaining elements; no element exactly if the path has none |
| `Names.ComponentsJoined` | fs.c:567-582 | splitting the names joined by slashes gives the names |
| `Names.ComponentsLaws` | fs.c:567-605 | a leading slash changes nothing; a name up to the next slash or the end of the path is one component, cut at 14 characters |
| `Directories.ReadEntry` | fs.c:520-522 | reading an entry of a directory always yields the whole entry |
| `Directories.Dirlookup` | fs.c:512-535 | the directory's map at the name, and where its entry stands; not found exactly if the map has no such name |
| `Directories.FindFree` | fs.c:551-557 | the offset of the first free entry if there is one, else the end of the directory |
| `Directories.Dirlink` | fs.c:539-565 | refused exactly if the name is there; otherwise the directory's map is extended by it (by nothing if the number is 0 as a short), and every other file is unchanged |
| `Directories.LinkedTree` | fs.c:539-565 | linking an allocated inode keeps every directory free of duplicates and every entry on an allocated inode |
| `Directories.Ilock` | fs.c:272-300 | the in-memory inode is the one on the disk; the panic on an inode without type is excluded by the tree's invariant |
| `Directories.WalkIff` | fs.c:619-637 | the loop over the components ends at an inode exactly if there is a sequence of inodes from the start to it in which every one but the last is a directory that maps the next component to the next inode |
| `Directories.Namex` | fs.c:611-643 | an inode that the maps lead to, component by component, each step from a directory, starting at the root or the current directory; -1 exactly if they lead to none; the parent variant stops one component early, at a directory, and returns the last name |
| `Mkfs.Image.constructor` | tools/mkfs.c:87-107 | the blank image satisfies the ownership invariant with exactly the metadata in use |
| `Mkfs.Image.Ialloc` | tools/mkfs.c:224-235 | the next inode is an empty file of that type with one link; all files are unchanged |
| `Mkfs.Image.Winode` | tools/mkfs.c:184-195 | the inode on the image is the given one, and no file's bytes change |
| `Mkfs.Image.Rinode` | tools/mkfs.c:198-208 | the inode as written last |
| `Mkfs.Image.Iappend` | tools/mkfs.c:256-303 | the bytes follow those of the file, all other files are unchanged, exactly the blocks that the longer file needs are taken, ownership is exclusive and there are no holes |
| `Mkfs.Image.FixRoot` | tools/mkfs.c:152-157 | rounding up the root directory's size leaves a hole if and only if the size was a multiple of the block size |
| `Mkfs.Image.Balloc` | tools/mkfs.c:238-251 | with the bitmap written, the home part of the image satisfies the kernel's invariant, and marked are exactly the blocks below the counter: those of the log area are not |
| `MakeImage.AddEntry` | tools/mkfs.c:139-142 | the root directory gains the entry; it is free of duplicates exactly if it was and the name is new, and then its map gains the name |
| `MakeImage.AppendAll` | tools/mkfs.c:146-147 | a file read in pieces of 512 bytes has all its bytes |
| `MakeImage.AddProgram` | tools/mkfs.c:122-150 | one round of the loop over the arguments |
| `MakeImage.StoredNames` | tools/mkfs.c:130-141 | a program file called `_w`, or `w` without a leading underscore, is stored as `w`: the directory has `.`, `..` and these names and no others, and if they are distinct, leads from the k-th of them to inode 2 + k |
| `MakeImage.Make` | tools/mkfs.c:63-162 | the image of any list of programs that fits: consistent, each program's file holds its bytes, the root directory has no duplicates exactly if no two of the stored names agree in 14 characters, and then it is exactly the map of `.`, `..` and these names; the blocks in use are counted exactly, and the log is empty |
| `FirstBoot.Start` | tools/mkfs.c:63-162 | the kernel that boots from this image finds exactly these names if they are distinct; it has its file system invariants provided, and only if, the root directory did not fill its last block |
| `FirstBoot.FindProgram` | tools/mkfs.c:122-150 | on the booted kernel the path of a slash and the stored name of the k-th program leads to inode 2 + k, whose data are the bytes of that program |
| `FirstBoot.HoleExample` | tools/mkfs.c:152-157 | every image of thirty programs has a hole |
| `FirstBoot.FullDisk` | fs.c:61-72 | on an image whose home blocks are all in use, balloc hands out the first block of the log |
| `UserHeap.AdequateIff` | usr/umalloc.c:69 | the unit arithmetic is right exactly for requests up to 0x7FFFFFF0 bytes |
| `UserHeap.SbrkRightIff` | usr/umalloc.c:47-55 | sbrk's int parameter is wrong exactly for the requests beyond that do not wrap to almost nothing, and then it is zero or negative |
| `UserHeap.WrappedRequest` | usr/umalloc.c:69 | the largest request wraps to a block of a single unit, its header |
| `UserHeap.Link` | usr/umalloc.c:30-41 | linking a used block behind the place found keeps the free list circular and in address order |
| `UserHeap.Merge` | usr/umalloc.c:33-41 | absorbing the touching neighbour keeps the list, the partition of the heap into blocks, and coalescing |
| `UserHeap.CutOk` | usr/umalloc.c:78-82 | cutting the tail off a free block keeps list and partition; the tail becomes a block in use |
| `UserHeap.Allocator.Find` | usr/umalloc.c:30-32 | the loop terminates at the place of the block in the circle |
| `UserHeap.Allocator.Free` | usr/umalloc.c:25-44 | the block and only it is no longer in use, the free list stays circular, ordered and fully coalesced, the search for the next request starts at its place, no other block changes, and a request of its size now fits |
| `UserHeap.Allocator.Morecore` | usr/umalloc.c:47-61 | 0 exactly if sbrk refuses; otherwise the new units are free and a request of that size fits |
| `UserHeap.Allocator.Malloc` | usr/umalloc.c:64-90 | the search terminates; 0 exactly if no free block fits and sbrk refuses; otherwise the tail of the first fit behind the place of the last search, or of a block that morecore made fit, becomes a used block of exactly the requested units, apart from all others, which do not change |
| `UserHeap.Allocator.Conservation` | usr/umalloc.c:24-90 | in every reachable heap the free and the used units add up to the units obtained from sbrk, and each block has the units its header says |
| `UserHeap.Allocator.LiveApart` | usr/umalloc.c:24-90 | two blocks in use never overlap and never leave the heap |
| `Processes.Kernel.constructor` | proc.c:92-118 | one runnable process, init, satisfies the invariant |
| `Processes.Kernel.Allocproc` | proc.c:48-87 | the first unused slot with a new process id; failure exactly without a slot or a stack, and then only a process id has been used up |
| `Processes.Kernel.Fork` | proc.c:144-176 | failure exactly without a slot, a stack or memory; otherwise one more runnable child of the caller |
| `Processes.Kernel.Wakeup` | proc.c:404-420 | exactly the processes asleep on the channel become runnable |
| `Processes.Kernel.PassChildren` | proc.c:206-213 | the loop gives all children to init and wakes init if and only if one of them is a zombie |
| `Processes.ExitedGood` | proc.c:203-217 | the last step of exit leaves no process with a dead parent, and no parent asleep in wait beside a zombie |
| `Processes.Kernel.Exit` | proc.c:201-217 | the table after exit, in which that holds |
| `Processes.ExitedAt` | proc.c:203-217 | the table after exit, field by field: the caller is a zombie, its children belong to init, and exactly its parent asleep in wait and init asleep beside a zombie child become runnable |
| `Processes.Kernel.Wait` | proc.c:224-262 | the first zombie child is reaped; -1 exactly if there is none and there are no children at all or the caller is killed; otherwise the caller sleeps, and then it has no zombie child |
| `Processes.Kernel.Sleep` | proc.c:365-391 | the caller sleeps on the channel, and nothing else changes |
| `Processes.Kernel.Yield` | proc.c:333-339 | the caller is runnable, and no process runs |
| `Processes.Kernel.Kill` | proc.c:426-443 | the first process with that id is marked as killed and is runnable if it was asleep; its id, parent and channel and all other processes are unchanged; -1 exactly if there is none |
| `Processes.KilledWaiter` | proc.c:224-262 | a process asleep in wait without a zombie child that is killed runs again, and its wait fails |
| `Processes.Kernel.Dispatch` | proc.c:273-309 | the first runnable process from where the scan resumes runs, alone, and is the current process |
| `Processes.Kernel.BoundedWaiting` | proc.c:273-339 | in every interleaving a process that stays runnable sees at most NPROC - 1 dispatches of others |
| `Pipes.Wraps` | pipe.c:84-93 | 32-bit counters that wrap tell a full ring from an empty one and find the right byte, because 512 divides 2^32 |
| `Pipes.Pipe.constructor` | pipe.c:22-57 | an empty pipe with both ends open |
| `Pipes.Pipe.Write` | pipe.c:79-98 | a writer's turn: what it adds to the bytes written is the next piece of its data, in every run; it sleeps only beside a full ring with the read end open; sleeping readers are left beside a full ring exactly if a writer of more than a ringful is killed or finds the read end closed |
| `Pipes.Pipe.Read` | pipe.c:101-121 | a reader's turn: what it gets are the next bytes written and not yet read, in every run; it sleeps only beside an empty ring with the write end open |
| `Pipes.Pipe.Close` | pipe.c:60-75 | closing an end wakes the other side, and the page is to be freed exactly when both ends are closed |
| `Pipes.Pipe.OthersKeep` | pipe.c:79-121 | steps that add no sleeper on the ring keep both wakeup properties |
| `Pipes.KilledWriter` | pipe.c:85-89 | a killed writer of 513 bytes leaves a reader asleep beside a full ring |
| `PipeRuns.Take` | proc.c:48-443 | no step of the process table puts anybody to sleep on an address, except that sleep does so with its caller on its own channel |
| `PipeRuns.Elsewhere` | proc.c:48-443 | no step of the process table other than a turn at the pipe can break the pipe's wakeup properties |
| `PipeRuns.Run` | pipe.c:60-121 | in every run of writes, reads, closes and any other steps: what has been read is a prefix of what has been written, at most 512 bytes apart; a writer sleeps only beside a full ring that can be read; a reader sleeps only beside an empty ring that can be written, if no write of more than a ringful is in the run or none has lost a wakeup |
| `Descriptors.Kernel.Filealloc` | file.c:27-41 | an unused file with one reference; failure exactly if all are in use |
| `Descriptors.Kernel.Filedup` | file.c:45-53 | one more reference |
| `Descriptors.Kernel.Fileclose` | file.c:57-80 | one reference less; with the last one the file is unused and its end of a pipe closed, and the page freed exactly with the pipe's last end |
| `Descriptors.Kernel.Fdalloc` | sysfile.c:39-50 | the first free descriptor takes the reference over; failure exactly if there is none |
| `Descriptors.Kernel.SysDup` | sysfile.c:53-64 | the lowest free descriptor is a second one for the file, counted; every failure changes nothing |
| `Descriptors.Kernel.SysClose` | sysfile.c:92-102 | the descriptor is free, and its reference given up |
| `Descriptors.Kernel.Pipealloc` | pipe.c:22-57 | two files on the two ends of a new pipe; failure exactly without a page or two unused files, and then the table is as before |
| `Descriptors.Kernel.SysPipe` | sysfile.c:405-426 | the two lowest free descriptors for the two ends; failure exactly without a page, two unused files or two free descriptors; if the descriptors run out, both files are closed and the page is freed exactly once |
| `Descriptors.Kernel.OpenInode` | sysfile.c:305-320 | the lowest free descriptor for the inode; failure exactly if files or descriptors run out, and then nothing has changed |
| `Descriptors.Kernel.ForkFiles` | proc.c:167-169 | the child has the parent's open files, each counted once more |
| `Descriptors.Kernel.ExitFiles` | proc.c:190-196 | the process has no open files, and all other descriptors are unchanged |
| `Machine.System.References` | file.c:19-80 | in every reachable state of the process table and the descriptors together, unused and zombie processes have no open files, and each file's count is the number of descriptors on it |
| `Machine.System.Abandon` | proc.c:154-159 | a fork that fails gives back a slot without open files |
| `Machine.System.ShareFiles` | proc.c:167-169 | a child under construction has no open files before it gets the parent's |
| `Machine.System.Fork` | proc.c:144-176 | on every failure the open files are as before; otherwise the child's descriptors are the parent's |
| `Machine.System.CloseFiles` | proc.c:190-196 | a process in exit has no open files from then on, and all other processes keep theirs |
| `Machine.System.Exit` | proc.c:201-217 | the table after exit, in which the caller is a zombie without open files; nobody runs; the joint invariant of process table and descriptors is kept |
| `Machine.System.Wait` | proc.c:224-262 | the first zombie child is reaped, its slot has no open files; failure and sleep exactly as in wait; the joint invariant is kept |
| `Machine.System.Do` | sysfile.c:39-426 | dup, close, pipe and open of a running process: the exact conditions of failure, the descriptors after success, nothing changed on failure, and no other process's descriptors changed; the joint invariant is kept |
| `Machine.System.Step` | proc.c:273-443 | the effect of sleeping, waking, yielding, killing, dispatching and resuming on the table and the current process; the joint invariant is kept |
| `Machine.CloseEnd` | file.c:68-74 | the last close of an end finds that end open, and the page is freed exactly when the ring has no open end |
| `Pages.Memory.Freerange` | kalloc.c:43-49 | exactly the frames of the range are added to the free list |
| `Pages.Memory.Kfree` | kalloc.c:57-74 | the frame is the head of the free list, and no other frame changes |
| `Pages.Memory.Kalloc` | kalloc.c:80-92 | the head of the free list; 0 exactly if it is empty |
| `Pages.Memory.Setupkvm` | vm.c:129-139 | a directory that maps nothing |
| `Pages.Memory.EnsureTable` | vm.c:28-48 | the second-level table of the page, made if there is none, and the directory entry that leads to it; failure exactly if there is no frame for it |
| `Pages.Memory.AppendPage` | vm.c:54-87 | the next page of the space is mapped to the frame; failure exactly if a table is needed and there is no frame for it; no other space changes |
| `Pages.Memory.Deallocuvm` | vm.c:284-307 | exactly the frames of the pages beyond the new size are free, though the skip over a missing table is four times as wide as a table: contiguity makes it safe |
| `Pages.Memory.Freevm` | vm.c:312-326 | exactly the frames, tables and the directory of the space are free, and nothing else changes |
| `Pages.Memory.Allocuvm` | vm.c:255-277 | the space grows by blank pages up to the new size, each of them mapped with access for the user in all four quarters, or is as before with the result 0 if memory runs out; a frame is lost exactly if the last free frame goes to a page whose table is missing; the new size is returned with the last page unmapped exactly if that page is the last one wanted, and in no other case is a returned size wrong |
| `Pages.Memory.Copyuvm` | vm.c:344-371 | a space with the same flags and contents on frames that were free, or everything given back; a frame is lost exactly under the same condition |
| `Pages.StarvesExample` | vm.c:274 | one free frame, and a page that needs a table: the frame is lost, and if it is the last page wanted, success is reported |
| `Pages.FalseSuccess` | vm.c:266-276 | from 256 to 257 pages with one frame left: success is reported, page 256 is not mapped, and the space is not one that copyuvm accepts |
| `UserCopy.Uva2ka` | vm.c:376-386 | the frame of a page that the user may access; 0 exactly if there is a table but no such page in it; the walk's null pointer is followed exactly if there is no table |
| `UserCopy.Copyout` | vm.c:392-412 | the bytes before the first page that the user may not access arrive at their user addresses, whatever frames those lie in; no other byte of any space changes; -1 exactly if there is such a page with a table |
| `UserCopy.Copyin` | vm.c:416-434 | the same bytes come back, under the same conditions, and nothing else of the buffer changes |
| `UserCopy.OutAndIn` | vm.c:392-434 | what copyout has delivered, copyin fetches; both succeed exactly if the user may access every page of the range |
| `UserCopy.GrowAndCopy` | vm.c:255-277 | what is copied out to any range of the pages that a successful allocuvm has just mapped, and copied in again, is what was sent |
| `UserCopy.ClearUser` | vm.c:338 | exactly the four user permission bits of the entry are gone, the frame stays |
| `UserCopy.Clearpteu` | vm.c:331-339 | the page is closed to the user, and every other page of every space is as before |
| `Regex.MatchHere` | usr/grep.c:84-95 | true exactly if some prefix of the text (all of it if the pattern ends in `$`) is in the pattern's language; the recursion terminates |
| `Regex.MatchStar` | usr/grep.c:98-105 | true exactly if the rest matches behind some run of the character |
| `Regex.StarLaw` | usr/grep.c:98-105 | the language of a starred character unfolds by one character |
| `Regex.PatternLaws` | usr/grep.c:84-95 | the other forms of a pattern: the empty one, `$`, and a character or `.` in front |
| `Regex.Match` | usr/grep.c:72-81 | true exactly if some substring, or a prefix for `^`, is in the pattern's language |
| `Windows.RectIntersect` | usr/wm.c:47-62 | the common points; failure exactly if there are none |
| `Windows.RectSubtract` | usr/wm.c:64-102 | at most four non-empty rectangles that tile the difference |
| `Windows.ComputeVisibleRects` | usr/wm.c:104-136 | non-empty disjoint rectangles that cover exactly the points of the window under no other window; the arrays overflow exactly if some round has more than 32 rectangles |
| `Windows.InBuffer` | usr/wm.c:177-194 | the index into the window's buffer is in range for every point of the window |
| `Windows.Desktop.BlitWindowRects` | usr/wm.c:177-194 | exactly the visible points of the window get its colours |
| `Windows.Desktop.RedrawAll` | usr/wm.c:196-200 | each point under a window shows the colour of the topmost window there, and there is one; every other point is unchanged |
| `Windows.Desktop.FocusWindow` | usr/wm.c:298-305 | the window is on top and has the focus, the order of the others is kept |
| `ShellGrammar.RoundTrip` | usr/sh.c:329-447 | parsing the tokens of a printed command gives the command |
| `ShellGrammar.ParsedFits` | usr/sh.c:417-447 | every command that is parsed keeps within the limit of arguments |
| `ShellGrammar.ParsableIff` | usr/sh.c:329-447 | a command is the result of parsing some token sequence exactly if all its simple commands keep within the limit |
| `ShellRelation.ParsesIff` | usr/sh.c:329-447 | parsing all of a token sequence gives a command exactly if the grammar, stated without a parser, derives it: words and redirections in any order, `<` for reading, `>` and `>>` for writing, then parentheses, pipes, `&` and `;` |
| `Shell.Gettoken` | usr/sh.c:267-309 | the next token and the position behind it and the blanks that follow |
| `Shell.Peek` | usr/sh.c:312-321 | whether the next token begins with one of the symbols, without consuming it |
| `Shell.LexIff` | usr/sh.c:267-309 | the tokens are the only way to cut the line at the token starts and ends that the grammar of blanks, symbols and words prescribes |
| `Shell.Parseline` | usr/sh.c:346-360 | the recursive descent over the characters agrees with the grammar over the tokens, and terminates |
| `Shell.Parsecmd` | usr/sh.c:329-343 | a command that the grammar derives from the tokens of the line, with every word of it terminated in the buffer; a panic exactly where it derives none, and then the buffer is unchanged |
| `Shell.Nulterminate` | usr/sh.c:451-494 | every argument and file name ends exactly at its token's end, and no byte of any token is overwritten |
| `Shell.LexShow` | usr/sh.c:267-309 | cutting a printed line into tokens gives the printed tokens |
| `Shell.ShellRoundTrip` | usr/sh.c:267-447 | parsing the printed line of any well-formed command tree gives that tree, with its words as slices of the line |

## Left out

- BufferCache.Bcache.Bget: is one pass of the loop; `BufferCache.Bcache.BreadWait` puts passes together, for a bounded number of wake-ups, and says nothing about whether the buffer is ever given up.
- RedoLog.Log.Read: asks that the process does not hold the sector already and that a buffer is left, since the file system is modelled for one process at a time; two processes in it at once are not.
- CrashSafety.CrashRun: a sector write either happens or does not; torn sectors are not modelled.
- RedoLog.Log.LogWrite: the panics on a full log, outside a transaction, and without buffers are preconditions; `FileIO.WriteChunk` and `Truncation.CloseUnlinked` meet them, with one bitmap block.
- FileIO.Writei: asks that the transaction has logged so little that four data blocks, the indirect block, the bitmap and the inode fit, as in `filewrite` and `dirlink`; a larger write in one transaction is not covered. The outcome `NoSpace`, where `balloc` has panicked or run into the log area, ends the run.
- FileIO.Readi: regular files and directories only, no device inodes; `fileread` and `stati` are not modelled.
- FileWrite.Filewrite: is for regular files; pipes are in `Pipes`.
- Truncation.IputLast: the reference count of the in-memory inode and the waiting for its busy flag are not modelled; it is the branch for the last reference to an unlinked inode.
- Directories.Ilock: no other process has the inode locked; `iget` and the count in the inode cache are not modelled.
- Directories.Dirlink: asks for room in the directory file, where the code panics.
- Mkfs.Image.Iappend: asks for blocks that remain, where the code would go on into the log, and for a file within the maximal size, as the code asserts.
- Truncation.CloseUnlinked: is the close that drops the last reference to an unlinked inode; other closes change only counts.
- Descriptors.Kernel.Fileclose: leaves out the transaction around `iput` for the file of an inode, which is `Truncation.CloseUnlinked`.
- MakeImage.Make: reads no files and parses no arguments; the programs are given. For a root directory of exactly the maximal size nothing is said about its map.
- UserHeap.Allocator.Malloc: excludes the requests for which `sbrk` would get zero or a negative number (`UserHeap.SbrkRightIff`); `sbrk` itself is a parameter that grants or refuses, with a gap for memory others have taken.
- Processes.Kernel.Allocproc: process ids do not overflow.
- Processes.Kernel.Kill: nothing is said about which slot a pid of 0 finds.
- Pipes.Pipe.Write: a turn ends where the code sleeps; the caller goes on with the number of bytes it had written.
- Machine.System.Do: the page for a new pipe is given by the caller, which owns none of the present ones.
- Pages.Memory.Allocuvm: sizes below the user bound; kernel mappings are not part of the directories.
- Windows.Desktop.RedrawAll: coordinates are unbounded integers, colours are numbers, and the frame buffer is a map from points.
- Shell.Parsecmd: command nodes are values, not heap cells; the panic messages are not distinguished.
- UserCopy.Copyin: the range lies below the user bound, though the frame buffer driver does not check that.
- UserCopy.Copyout: the range lies below the user bound; `inituvm` and `loaduvm`, which copy the first program in, are not modelled.
- `exec`, system call argument fetching, traps, interrupts, spinlocks, device drivers, the file and directory system calls beyond those above.
- `unlink` and `link`: link counts after entries are made inside a removed directory have no clean invariant.
- `grep`'s line buffer, text rendering and the starting of programs in windows, and the small user programs.
