# A Dafny model of xv6-rv32im

xv6-rv32im is a small Unix-like kernel for 32-bit RISC-V with a crash-safe file system, two-level page tables,
a virtio disk driver and a TCP client, together with a few user programs. This project models the parts of it in
which one mistake corrupts data, and proves for all inputs, all interleavings and all crash points that they keep
what they are for.

`dafny verify dfyconfig.toml` checks everything.

## How the model is laid out

| files | part of the system |
|---|---|
| `options` `ranges` `blocks` | what the other modules share: missing values, runs of numbers, disk blocks |
| `lruring` `bufcache` `cacheruns` | the buffer cache of `kernel/bio.c`, and every interleaving of its uses |
| `crash` `groupcommit` `log` | the redo log of `kernel/log.c`: its trace of disk images, the reservation protocol, the code over the cache |
| `bitmap` `fsstate` `fs` `inodetable` | allocator, inodes, file contents, `filewrite` and inode records of `kernel/fs.c` and `kernel/file.c` |
| `crashfs` | a transaction of the file system through cache and log: at every crash point recovery gives a consistent file system |
| `mkfs` `mkfstree` | the image that `mkfs/mkfs.c` builds, as the first state of the file system and of its name space |
| `names` `sysfile` `linklimit` `paths` | directories, link counts and what happens at their limit, path walking |
| `pagemem` `vm` `usercopy` | page ownership, address spaces and user copies of `kernel/vm.c`, `kernel/kalloc.c`, `kernel/proc.c` |
| `heapblocks` `umalloc` | the allocator of `user/umalloc.c` |
| `virtqueue` `virtio` | the descriptor and ring protocol of `kernel/virtio_disk.c` (sections 2.6 and 5.2 of virtio 1.1) |
| `sleepwakeup` `sleeplock` `exitwait` | sleep and wakeup for any condition, the sleep-lock as one of its uses, exit and wait, of `kernel/proc.c`, as step systems |
| `tcp` `checksum` `utils` | one connection of `kernel/tcp.c` (sections 3.7 and 3.9 of RFC 793), the Internet checksum (RFC 1071), the generator of initial numbers |
| `shparse` `shlex` `sh` | the parser of `user/sh.c` |

Code that updates structures in place is a class whose methods do the same updates; beside it stands a value of a
subset type that carries the invariant (`OkView`, `OkFs`, `OkMm`, `OkHeap`, `OkQueue`), and every method
says which function of the old value the new one is. A panic is an outcome (`None` or `false`), and the contract
says exactly when it is possible, or that it is not. Protocols with interleaving are step systems, and their
theorems quantify over every run.

## What the code does not do

Some natural claims about this code are false. Each has an exact condition:

- The log can panic with "too big a transaction" although every operation keeps to its reservation, because
  `log_write` refuses even a block that is already logged once the log is full. With `k` distinct blocks per
  operation the panic is reachable if and only if `2k + 10` is at least the capacity (`GroupCommit.TooBigIff`);
  `filewrite` stays clear of it, with at most 7 blocks for a one-block bitmap (`FileSystem.Budget`).
- `mkfs` leaves the root directory with a size that covers an unmapped block if and only if the number of files is
  62 modulo 64 (`Mkfs.Build`; 62 empty files do it, `Mkfs.SixtyTwoFiles`), and a name space that is no tree if and only if
  two names, the dots included, agree in their first 14 bytes (`MkfsTree.ImageTree`).
- `malloc` hands out too little if and only if `nbytes + 7` wraps (`Umalloc.Enough`). It passes `sbrk` a negative number
  for requests from 2^31 - 15 to 2^32 - 16 bytes, and 0 for the eight up to 2^32 - 8 (`Umalloc.BreakGrows`).
- `sys_link` keeps the link counts right if and only if the count, a short, is below 32767 (`Names.LinkedOk`); such a tree
  exists, and unlinking the name then panics (`LinkLimit.OneLinkTooMany`). The ".." of a new directory cannot do the same:
  a directory's count stays below the number of its entries (`Names.DirCount`).
- `tcp_read` reports the end of a stream that was read to its end if and only if the state is not FIN_WAIT2
  (`Tcp.Conn.Read`). When both ends close before they see the other's FIN, the connection ends up there, and nothing that
  the peer can send changes the state or wakes a sleeper again (`Tcp.StuckForEver`, `Tcp.ClosedTogether`): `tcp_read`
  sleeps for ever, and so does `tcp_close` if no data came after it. A socket that was never connected yields zeros.
  `tcp_send` keeps snd.una <= snd.nxt if and only if snd.nxt does not wrap (`Tcp.View.SendsOk`).

## Model

| member | source | states |
|---|---|---|
| `LruRing.PushKeeps` | kernel/bio.c:46-52 | linking a new buffer behind the list head keeps prev/next one cycle |
| `LruRing.UnlinkKeeps` | kernel/bio.c:128-129 | unlinking a buffer leaves one cycle through all the others, without it |
| `BufCache.Cache.constructor` | kernel/bio.c:37-53 | binit: one cycle through the head and all NBUF buffers; nothing cached, nothing referenced |
| `BufCache.Cache.FindCached` | kernel/bio.c:65-73 | the buffer assigned to the block, found exactly when there is one |
| `BufCache.Cache.FindUnused` | kernel/bio.c:75-88 | the least recently used unreferenced buffer; none only when every buffer is referenced |
| `BufCache.Cache.Reference` | kernel/bio.c:63-88 | bget up to the release of bcache.lock, whoever holds the buffer: one more reference to the buffer of the block, or the least recently used unreferenced buffer assigned to it; the panic exactly when there is none |
| `BufCache.Cache.Acquire` | kernel/bio.c:84 | the lock of a referenced buffer is taken once it is free; nothing visible changes |
| `BufCache.Cache.Bget` | kernel/bio.c:59-89 | bget with nobody in between: hit or recycling of exactly that buffer, with its lock; the panic exactly when the block is not cached and every buffer is referenced |
| `BufCache.Cache.Bread` | kernel/bio.c:93-103 | the buffer returned is locked and holds what the file system sees in the block; no other buffer and no visible content changes |
| `BufCache.Cache.Bwrite` | kernel/bio.c:107-112 | one atomic disk write of the block, appended to the history of disk images |
| `BufCache.Cache.Release` | kernel/bio.c:122 | the holder drops the lock of a clean or pinned buffer, and no content is lost |
| `BufCache.Cache.Unreference` | kernel/bio.c:124-136 | the reference goes, whoever has the lock by now; the last one moves the buffer to the front and keeps the order of the rest |
| `BufCache.Cache.Brelse` | kernel/bio.c:117-137 | brelse with nobody in between: lock and reference are dropped without losing content; the last reference moves the buffer to the front and keeps the order of the rest |
| `BufCache.Cache.MoveToFront` | kernel/bio.c:126-134 | the six pointer stores: still one cycle, with this buffer first and the rest in order |
| `BufCache.Cache.Bpin` | kernel/bio.c:140-144 | one more pin, counted in refcnt; no visible content changes |
| `BufCache.Cache.Bunpin` | kernel/bio.c:147-151 | one pin less, of a buffer that agrees with the disk; no visible content changes |
| `BufCache.View.AssignOk` | kernel/bio.c:77-83 | giving an unreferenced buffer to another block keeps counts, uniqueness and what the file system sees; it is unlocked |
| `BufCache.View.UnlockOk` | kernel/bio.c:122 | unlocking a clean or pinned buffer loses nothing |
| `BufCache.View.UnrefOk` | kernel/bio.c:125 | dropping a reference keeps the counts, while another process may hold the lock |
| `BufCache.View.UnpinOk` | kernel/bio.c:147-151 | unpinning a clean buffer loses nothing |
| `CacheRuns.NextOk` | kernel/bio.c:59-151 | every step of any number of interleaved uses (reference, lock, read, store, write, pin, unlock, drop) keeps the cache invariant, and only a store changes what is seen, in its block |
| `CacheRuns.ReadsLastStored` | kernel/bio.c:59-151 | in every run from boot each block reads as what was last stored in it, or its disk contents |
| `CacheRuns.BreadReadsLast` | kernel/bio.c:93-103 | in every run, whatever happened between its reference and its lock, a use has its own block in its buffer, which once read holds what was last stored in the block |
| `CacheRuns.DiskHasLast` | kernel/bio.c:107-151 | in every run, a block nobody has locked or pinned, waited for or not, has on disk what was last stored in it |
| `CacheRuns.NeverRecycled` | kernel/bio.c:75-87 | no step takes a buffer away from a use of it, waiting or holding, or from a pinned block |
| `CacheRuns.UseKeepsBlock` | kernel/bio.c:59-137 | from its bget to the end of its brelse, through any run, a use has one buffer, assigned to one block |
| `CacheRuns.OneHolder` | kernel/bio.c:59-137 | in every run at most one use holds the lock of a block |
| `CacheRuns.OneBuffer` | kernel/bio.c:59-89 | in every run at most one buffer is assigned to a block |
| `Blocks.GetPut` | kernel/fs.c:394-399 | storing a 32-bit word in a block reads back as that word and changes no other word |
| `Crash.PutHeadReads` | kernel/log.c:103-114 | the header block written holds the count and every home block number |
| `Crash.Layout.WriteLogAt` | kernel/log.c:179-191 | after k rounds of write_log the first k log blocks hold the data and every other block is as before |
| `Crash.Layout.InstallPuts` | kernel/log.c:69-83 | after install_trans each distinct home block holds its log block |
| `Crash.Layout.InstallFrame` | kernel/log.c:69-83 | install_trans changes no block that is not a home of the transaction |
| `Crash.Layout.RecoverMidway` | kernel/log.c:117-123 | a crash after any number of installs recovers to the image that an undisturbed recovery gives |
| `Crash.Layout.RecoverAtStable` | kernel/log.c:117-123 | recovery is idempotent at each of its write boundaries |
| `Crash.Layout.AnyNumberOfCrashes` | kernel/log.c:117-123 | however many boots crash, the one that completes leaves what the first would have left |
| `Crash.Layout.RecoverCommitted` | kernel/log.c:194-203 | recovery of an image whose header names the transaction yields the whole transaction |
| `Crash.Layout.Uncommitted` | kernel/log.c:179-198 | recovery before the header write yields the home blocks of before |
| `Crash.Layout.CommittedStable` | kernel/log.c:198-202 | every image after the header write recovers to the same image |
| `Crash.Layout.CrashAtomic` | kernel/log.c:178-203 | for every write boundary of commit, recovery yields all old or all new home blocks, the latter exactly when the header write had reached the disk |
| `Crash.Layout.CrashAtomicForever` | kernel/log.c:68-123 | crash atomicity of commit through any number of further crashes during recovery |
| `Crash.Layout.TraceSurvives` | kernel/log.c:178-203 | every image in the trace of a commit survives any number of crashed boots, as before or as after the transaction exactly from the header write on |
| `Crash.Layout.RecoverySettles` | kernel/log.c:117-123 | every image in the trace of a recovery settles, through any number of crashed boots, to the recovered image |
| `GroupCommit.BeginKeeps` | kernel/log.c:127-142 | admitting an operation keeps the reservation invariant |
| `GroupCommit.WriteKeeps` | kernel/log.c:215-235 | log_write, new block or absorbed, keeps the reservation invariant |
| `GroupCommit.EndKeeps` | kernel/log.c:147-165 | end_op keeps the reservation invariant and starts a commit exactly with the last operation |
| `GroupCommit.CommitKeeps` | kernel/log.c:166-174 | the commit, which empties the log, keeps the reservation invariant |
| `GroupCommit.RunsKeep` | kernel/log.c:126-235 | the invariant holds in every run of every interleaving: logged numbers distinct, commits only without active operations, unspent reservations covered |
| `GroupCommit.OneTransaction` | kernel/log.c:126-175 | while an operation is active no commit happens and the log only grows, so everything it logs is committed together |
| `GroupCommit.ReservationsHold` | kernel/log.c:127-142 | in every run lh.n plus the unspent reservations is at most LOGSIZE, end_op never meets a commit, and logging a new block never panics when log.size > LOGSIZE |
| `GroupCommit.NeverTooBig` | kernel/log.c:219-221 | no run of operations of at most k blocks panics if 2k + MAXOPBLOCKS is below the capacity |
| `GroupCommit.FullPanics` | kernel/log.c:219-221 | a run that panics, constructed for every k with 2k + MAXOPBLOCKS at least the capacity: a full log refuses even a block it already holds |
| `GroupCommit.TooBigIff` | kernel/log.c:219-221 | the "too big a transaction" panic is reachable if and only if 2k + MAXOPBLOCKS is at least the capacity |
| `Log.EncodeHead` | kernel/log.c:106-111 | the copy loop of write_head writes the encoded header |
| `Log.DecodeHead` | kernel/log.c:90-95 | the copy loop of read_head reads count and numbers back |
| `Log.WriteLogRound` | kernel/log.c:184-189 | one round of write_log through the cache: one disk write, home contents in the log block; it fails only when every buffer is referenced |
| `Log.InstallRound` | kernel/log.c:74-81 | one round of install_trans: one disk write, log block at its home, one pin gone unless recovering |
| `Log.Log.WriteHead` | kernel/log.c:103-114 | the header on disk and in the cache is the encoded one, in one write |
| `Log.Log.WriteLog` | kernel/log.c:179-191 | the disk goes through exactly the images of the log writes, in order |
| `Log.Log.InstallTrans` | kernel/log.c:69-83 | the disk goes through exactly the images of the installs; the homes are unpinned unless recovering |
| `Log.Log.Commit` | kernel/log.c:194-203 | the disk goes through exactly the images that crash atomicity is proved for, and no home block changes for the file system; stops early only when every buffer is referenced |
| `Log.Log.BeginOp` | kernel/log.c:127-142 | the operation starts exactly when there is no commit and its reservation fits |
| `Log.Log.FindLogged` | kernel/log.c:225-228 | the position of the block in the log, or its end |
| `Log.Log.LogWrite` | kernel/log.c:215-235 | panics exactly when the log is full; otherwise the block is logged and pinned once, absorbed if it was logged |
| `Log.Log.Modify` | kernel/fs.c:228-236 | bread, a change, log_write and brelse: the file system sees the new contents, the block is logged and pinned, and nobody holds it |
| `Log.Log.EndOp` | kernel/log.c:147-165 | the commit panic cannot happen; a commit is due exactly for the last operation |
| `Log.Log.EndTransaction` | kernel/log.c:166-174 | the last end_op commits everything logged and is crash atomic: every image it puts on the disk survives any number of crashed boots as all old or all new home blocks, the latter exactly from the header write on; then the log is empty and nothing stays pinned |
| `Log.Log.ReadHead` | kernel/log.c:87-97 | the in-memory header is the one on disk |
| `Log.Log.RecoverFromLog` | kernel/log.c:117-123 | every image it puts on the disk settles to the recovered image through any number of crashes; at the end disk and file-system view are that image and the log is valid and empty |
| `Bitmap.BitSet` | kernel/fs.c:74-76 | setting one bit with the byte mask changes that bit and no other |
| `Bitmap.BitClear` | kernel/fs.c:96-100 | clearing one bit changes that bit and no other |
| `Bitmap.FindFree` | kernel/fs.c:71-84 | the two loops of balloc find the first free block |
| `FsState.GiveOk` | kernel/fs.c:383-393 | a free block, marked, zeroed and stored in an empty address slot, keeps ownership and bitmap in step |
| `FsState.GiveEntryOk` | kernel/fs.c:394-399 | a free block stored in an empty entry of the indirect block keeps ownership and bitmap in step |
| `FsState.Apart` | kernel/fs.c:378-405 | two different slots of any inodes hold different blocks |
| `FsState.PutWritten` | kernel/fs.c:497-506 | a copy into one block of a file changes those bytes of that file and no byte of any other |
| `FsState.WrittenContent` | kernel/fs.c:508-514 | with the size raised to cover what was written, the file is the old one overwritten at off and no other file changed |
| `FsState.DropDirectOk` | kernel/fs.c:416-421 | freeing a direct slot keeps the invariant, and the bit was set |
| `FsState.DropIndirectOk` | kernel/fs.c:423-433 | freeing the indirect block and its entries keeps the invariant, and every bit was set |
| `FsState.Truncated` | kernel/fs.c:410-437 | emptying all slots frees exactly the inode's blocks and touches no other file |
| `FileSystem.Volume.Balloc` | kernel/fs.c:65-86 | the first free block, marked, zeroed and logged; the panic exactly when no block is free |
| `FileSystem.Volume.Bfree` | kernel/fs.c:90-103 | panics exactly when the bit is clear; otherwise clears it |
| `FileSystem.Volume.Bmap` | kernel/fs.c:378-405 | the block of the file's block bn; a mapped one changes nothing, an unmapped one is allocated and every other file is as before; the panic exactly for a number out of range, with no block free, or with one free where an indirect block is needed too, and then the volume is still sound; what is logged is bounded |
| `FileSystem.Volume.Readi` | kernel/fs.c:456-477 | exactly the bytes of the file from off on, for any uint off and n, with the wrap test and the clip at the end; nothing is allocated or logged |
| `FileSystem.ReadBlock` | kernel/fs.c:466-475 | bytes within one block of the file are found in the mapped disk block |
| `FileSystem.Volume.WriteOnce` | kernel/fs.c:497-506 | one round of writei: exactly the chunk goes into the file; a failed copy only allocates |
| `FileSystem.Volume.WriteBlocks` | kernel/fs.c:497-506 | writei's loop writes the largest prefix, in whole blocks, that the source yields, over at most the blocks spanned |
| `FileSystem.Volume.Writei` | kernel/fs.c:487-517 | the file is overwritten at off with what could be copied, no other file changes, -1 exactly for a bad range, logged blocks bounded; it panics only with no block free, and then the volume is sound with a prefix of the source in the file |
| `FileSystem.Volume.Itrunc` | kernel/fs.c:410-437 | exactly the inode's blocks become free, no other file changes, no bfree panics |
| `FileSystem.Volume.Iupdate` | kernel/fs.c:222-237 | the inode is on disk and its block logged |
| `FileSystem.Volume.Ialloc` | kernel/fs.c:196-215 | the first inode of type 0 from 1 on, cleared and typed, with no block lost; the panic only when there is none |
| `FileSystem.Volume.IputLast` | kernel/fs.c:337-351 | the last reference to an unlinked inode frees the inode and exactly its blocks |
| `FileSystem.FreshOk` | kernel/fs.c:205-208 | clearing a free inode keeps the invariant, because it holds no blocks |
| `FileSystem.UntypeOk` | kernel/fs.c:346-348 | a truncated inode can be given type 0, and no file changes |
| `FileSystem.Budget` | kernel/file.c:161-167 | the blocks of one chunk, wherever it lies, are at most six plus the bitmap blocks: four data, one indirect, one inode |
| `FileSystem.Volume.WriteChunk` | kernel/file.c:174-179 | one transaction: a prefix of the chunk is in the file, all of it exactly when it fits, within the budget; every block that changed was logged, and the inode is written back |
| `FileSystem.Volume.NextChunk` | kernel/file.c:170-183 | one round: the bytes written so far stay a contiguous prefix of the source |
| `FileSystem.Volume.Filewrite` | kernel/file.c:167-185 | for every offset and length: a contiguous prefix of the source is written, n is returned exactly when everything fits and is readable, in one transaction for each begun chunk, and every transaction is within the budget |
| `InodeTable.Unpack` | kernel/fs.h:36-43 | two signed shorts in one word are read back |
| `InodeTable.GetPutRecord` | kernel/fs.c:228-234 | a 64-byte record stored in an inode block is read back field by field, and no other record of the block changes |
| `InodeTable.Itable.Load` | kernel/fs.c:300-307 | ilock reads exactly the record of that inode |
| `InodeTable.Itable.Update` | kernel/fs.c:222-237 | iupdate changes exactly the record of that inode and logs its block |
| `InodeTable.Itable.Alloc` | kernel/fs.c:196-215 | the first record of type 0 from 1 on is blank but for the type; the panic only when there is none |
| `CrashFs.StoredIs` | kernel/fs.c:228-234 | an inode block with its records stored holds exactly those inodes |
| `CrashFs.Write` | kernel/fs.c:228-236 | one block of an operation, bitmap, inode or data, in the cache and in the log as the operation leaves it; nothing is written to the disk |
| `CrashFs.AllLogged` | kernel/fs.c:65-103 | when every block that changed was logged, replacing the logged blocks in an image of the old file system gives an image of the new one |
| `CrashFs.SurvivorHolds` | kernel/log.c:178-203 | recovery, after any number of crashed boots, from any image of the commit leaves bitmap, inodes and data of before, or from the header write on of after |
| `CrashFs.Commit` | kernel/log.c:147-175 | the same for the images that end_op actually puts on the disk |
| `CrashFs.Transact` | kernel/log.c:126-175 | an operation alone, from begin_op to the end of its commit: a crash before any of its disk writes brings back the whole file system of before or of after; it fails only for want of a buffer |
| `CrashFs.CommitVolume` | kernel/file.c:174-179 | what an operation on the volume logged, committed: at every crash point recovery gives the consistent file system of before or of after, whatever the operation did |
| `Mkfs.FirstBitsAt` | mkfs/mkfs.c:246-259 | the bitmap of balloc(used) has exactly the first used bits set |
| `Mkfs.Balloc` | mkfs/mkfs.c:246-259 | mkfs balloc writes that bitmap; its assertion fails exactly from BSIZE * 8 on |
| `Mkfs.Image.constructor` | mkfs/mkfs.c:93-117 | the blank image satisfies the kernel's invariant with all inodes free |
| `Mkfs.Image.Ialloc` | mkfs/mkfs.c:232-243 | the next inode is empty with one link; every other inode is as before |
| `Mkfs.Image.MapBlock` | mkfs/mkfs.c:277-294 | the block for a file block, direct or indirect, taken from the bump allocator if there was none: at most one block of zeros appears in the file; the image is full exactly when fewer blocks are left than are wanted |
| `Mkfs.Image.Iappend` | mkfs/mkfs.c:264-305 | the file is longer by p, every other file as before, the invariant kept, and the blocks taken are those that the files hold; it succeeds exactly if the file is then not too long and the image has the blocks |
| `Mkfs.Image.CopyFile` | mkfs/mkfs.c:160-161 | the read loop leaves exactly the file's bytes in the inode |
| `Mkfs.Image.AddFile` | mkfs/mkfs.c:153-161 | a new inode with the contents, and its entry at the end of the root directory, exactly if there is an inode, the file is not too long and the blocks suffice |
| `Mkfs.RoundUp` | mkfs/mkfs.c:166-171 | raising a size past its last block: sound, with zeros added, if and only if the size is not a multiple of BSIZE |
| `Mkfs.PastTheEnd` | mkfs/mkfs.c:169 | at a multiple of BSIZE the size covers a block that is not mapped: no assignment of owners makes the image sound |
| `Mkfs.Image.FixRoot` | mkfs/mkfs.c:166-171 | the root directory is padded with zeros to the end of its block and the image stays sound, if and only if it did not end on a block boundary |
| `Mkfs.Build` | mkfs/mkfs.c:109-173 | the whole run: it succeeds exactly if there are inodes and blocks for the files and none is too long; the image then holds exactly the files asked for and a root directory naming them in order, and satisfies the kernel's invariant if and only if the number of files modulo 64 is not 62 |
| `Mkfs.NeededIs` | mkfs/mkfs.c:264-305 | the blocks that an image with these files holds: for each file its data blocks and, beyond NDIRECT of them, an indirect block; and those of the root directory |
| `Mkfs.SixtyTwoFiles` | mkfs/mkfs.c:166-171 | with 62 empty files mkfs succeeds and leaves an image that is not sound |
| `MkfsTree.RootEnts` | mkfs/mkfs.c:121-158 | the root directory, read entry by entry: the two dots, the files in order with their inode numbers, then free entries |
| `MkfsTree.ImageTree` | mkfs/mkfs.c:118-173 | the inodes and the root directory of the image form a tree with the right link counts if and only if the names differ, from each other and from the dots, in their first DIRSIZ bytes, and the directory is no larger than a file can be |
| `PageMem.EncodeDecode` | kernel/vm.c:94-99 | page-table entries round-trip through their 32-bit encoding |
| `PageMem.AllocOk` | kernel/kalloc.c:69-82 | taking a page off the free list keeps every page in exactly one place |
| `PageMem.ReleaseOk` | kernel/kalloc.c:47-63 | giving a held page back keeps every page in exactly one place |
| `PageMem.AttachOk` | kernel/vm.c:95-99 | hanging a new table into a root keeps every page in exactly one place |
| `PageMem.AttachSee` | kernel/vm.c:95-99 | a new table changes what no process sees |
| `PageMem.MapOk` | kernel/vm.c:150-154 | setting a leaf entry keeps every page in exactly one place |
| `PageMem.MapSee` | kernel/vm.c:150-154 | a leaf entry changes what one process sees at one page, and nothing else |
| `PageMem.UnmapOk` | kernel/vm.c:175-187 | clearing a leaf entry keeps every page in exactly one place |
| `PageMem.UnmapSee` | kernel/vm.c:175-187 | clearing it removes that page from that process, and nothing else |
| `PageMem.DetachOk` | kernel/vm.c:268-284 | freeing an empty leaf table keeps every page in exactly one place |
| `PageMem.OneLeaf` | kernel/vm.c:142-161 | two virtual pages that show the same physical page are the same page of the same process |
| `Vm.Fits` | kernel/vm.c:222-245 | a process has no more pages than RAM, so growth never reaches TRAPFRAME |
| `Vm.RolledBack` | kernel/vm.c:230-242 | growth undone: every process sees what it saw, and pages are only missing as tables |
| `Vm.Undone` | kernel/proc.c:185-197 | an address space given up leaves nothing behind |
| `Vm.Machine.constructor` | kernel/kalloc.c:27-40 | kinit puts every whole page from the end of the kernel to the end of RAM on the free list exactly once; no kfree panics; every later state starts here |
| `Vm.Machine.Kalloc` | kernel/kalloc.c:69-82 | the head of the free list, or 0 exactly when it is empty; no process sees a change |
| `Vm.Machine.Kfree` | kernel/kalloc.c:47-63 | a held page goes to the free list; the panic cannot happen |
| `Vm.Machine.Walk` | kernel/vm.c:85-102 | the leaf table for va, created if asked for; what processes see stays the same; it fails only without a free page |
| `Vm.Machine.Mappages` | kernel/vm.c:142-161 | one page: the process sees that page there, nothing else changes; it fails only without a free page; no remap panic |
| `Vm.Machine.Uvmunmap` | kernel/vm.c:167-188 | exactly the pages of the range are gone and, with do_free, free; no panic |
| `Vm.Machine.Uvmcreate` | kernel/vm.c:193-201 | an empty root; fails only without a free page |
| `Vm.Machine.Uvmalloc` | kernel/vm.c:222-245 | zeroed pages up to the new size, or 0 with every process seeing what it saw; never fails with two free pages for each page asked for |
| `Vm.Machine.Uvmdealloc` | kernel/vm.c:252-263 | exactly the pages above the new size are gone and free |
| `Vm.Machine.Freewalk` | kernel/vm.c:268-284 | every table of the root goes back to the free list; the leaf panic cannot happen |
| `Vm.Machine.Uvmfree` | kernel/vm.c:289-294 | exactly the pages of that address space become free; no other process sees a change |
| `Vm.Machine.Uvmcopy` | kernel/vm.c:303-330 | the child sees byte for byte and flag for flag what the parent sees below the size, in pages that were free; or -1 with every process seeing what it saw |
| `Vm.Machine.ProcPagetable` | kernel/proc.c:172-200 | only trampoline and trapframe are mapped, or nothing is kept |
| `Vm.Machine.ProcFreepagetable` | kernel/proc.c:205-210 | every table and user page becomes free |
| `UserCopy.Proc.Growproc` | kernel/proc.c:253-268 | for every int n the process has exactly the pages below its new size; on failure every process sees what it saw |
| `UserCopy.Walkaddr` | kernel/vm.c:108-125 | the page of va, or 0 exactly when user mode may not touch it |
| `UserCopy.Copyin` | kernel/vm.c:374-393 | equal to loading byte after byte through the address map, up to the first fault, for any alignment and length |
| `UserCopy.Copyinstr` | kernel/vm.c:400-436 | equal to loading byte after byte up to a NUL, the limit or a fault |
| `UserCopy.Copyout` | kernel/vm.c:349-368 | equal to storing byte after byte up to the first fault; no other process sees a change |
| `HeapBlocks.FreedOk` | user/umalloc.c:33-42 | free keeps the ring ascending, blocks disjoint and coalesced, takes away exactly that allocation and loses no unit |
| `HeapBlocks.TakenOk` | user/umalloc.c:75-85 | malloc keeps the ring ascending, blocks disjoint and coalesced, adds exactly one allocation of n units and loses no unit |
| `HeapBlocks.GrownOk` | user/umalloc.c:54-58 | memory from sbrk joins as one block |
| `Umalloc.StopsThere` | user/umalloc.c:30-32 | the exit tests of free's loop hold at the one right place of the ring and nowhere else |
| `Umalloc.Allocator.Search` | user/umalloc.c:30-32 | free's loop ends, wherever freep is, at the free block before bp |
| `Umalloc.Allocator.Free` | user/umalloc.c:25-44 | the allocation is gone, its units free and coalesced, every other allocation untouched |
| `Umalloc.Allocator.Morecore` | user/umalloc.c:47-61 | the units obtained join the free ones; 0 exactly when sbrk fails |
| `Umalloc.Allocator.Scan` | user/umalloc.c:74-89 | once around the ring from freep: a block that is large enough and the one before it, or there is none |
| `Umalloc.Allocator.Malloc` | user/umalloc.c:64-90 | a new allocation of the units asked for, disjoint from all others; sbrk is asked at most once and only when nothing fits; 0 exactly when it then refuses; a request that would pass it a number that is not positive is reported, exactly then and with the heap as it was |
| `Umalloc.EachUnitOnce` | user/umalloc.c:24-90 | in every state every unit obtained from sbrk, and no other, is in exactly one block, free or allocated |
| `Umalloc.Enough` | user/umalloc.c:69 | the block holds nbytes if and only if nbytes <= 2^32 - 8; nbytes = 2^32 - 1 gets none |
| `Umalloc.BreakGrows` | user/umalloc.c:52-54 | the 32-bit argument of sbrk, read as an int, is positive if and only if nbytes <= 2^31 - 16 or nbytes > 2^32 - 8, zero for the eight requests up to 2^32 - 8, negative for the others |
| `VirtQueue.SlotOf` | kernel/virtio_disk.c:260-265 | 16-bit wrap-around of the indices keeps ring positions in step |
| `VirtQueue.Enqueue` | kernel/virtio_disk.c:260-265 | a new element goes into a slot that no pending element uses |
| `VirtQueue.PublishOk` | kernel/virtio_disk.c:235-265 | publishing a request keeps the ring invariant |
| `VirtQueue.FetchOk` | kernel/virtio_disk.c:265-269 | the device finds the oldest published request |
| `VirtQueue.CompleteOk` | kernel/virtio_disk.c:297-300 | a completion keeps the invariant, whatever the order of completions |
| `VirtQueue.AckOk` | kernel/virtio_disk.c:300-312 | acknowledging reads the oldest unread completion, of status 0, with its own buffer |
| `VirtQueue.RetireOk` | kernel/virtio_disk.c:276-277 | freeing the chain of an acknowledged request keeps the invariant |
| `VirtQueue.ChainsComplement` | kernel/virtio_disk.c:144-201 | in every state the chains in flight are disjoint and are exactly the descriptors that are not free |
| `VirtQueue.ExactlyOnce` | kernel/virtio_disk.c:204-315 | in every state a request that is over had its flag cleared exactly once, after its own completion |
| `Virtio.Disk.constructor` | kernel/virtio_disk.c:125-138 | all descriptors free, both rings empty |
| `Virtio.Disk.AllocDesc` | kernel/virtio_disk.c:145-154 | the first free descriptor; -1 exactly when there is none |
| `Virtio.Disk.FreeDesc` | kernel/virtio_disk.c:158-170 | a descriptor in use becomes free and blank; neither panic can happen |
| `Virtio.Disk.Alloc3` | kernel/virtio_disk.c:190-201 | three different free descriptors, or none and nothing changed, because fewer than three are free |
| `Virtio.Disk.FreeChain` | kernel/virtio_disk.c:174-185 | exactly the three descriptors of the chain become free |
| `Virtio.Disk.Submit` | kernel/virtio_disk.c:204-269 | the request is published with three descriptors of its own, or has to sleep because fewer than three are free |
| `Virtio.Disk.DeviceFetch` | kernel/virtio_disk.c:265-269 | the device takes the oldest published request |
| `Virtio.Disk.DeviceComplete` | kernel/virtio_disk.c:297-300 | the device completes any request it has taken |
| `Virtio.Disk.IntrRound` | kernel/virtio_disk.c:300-312 | the flag cleared is that of the buffer whose request completed; the status panic cannot happen |
| `Virtio.Disk.Intr` | kernel/virtio_disk.c:283-315 | every completion there is gets acknowledged |
| `Virtio.Disk.Finish` | kernel/virtio_disk.c:272-277 | its three descriptors are free again, and its flag had been cleared |
| `SleepWakeup.NextOk` | kernel/proc.c:529-573 | for any condition on any channels that only holders of lk change: every step of sleep and wakeup, of a lock holder who wakes what it made ready, and of kill keeps the invariant |
| `SleepWakeup.NoLostWakeup` | kernel/proc.c:529-573 | in every run, for any such condition, while nobody holds lk the condition of every process that sleeps, or has released lk to sleep, is false |
| `SleepWakeup.WakeupReachesAll` | kernel/proc.c:560-573 | in every run a process that sleeps, or is about to, although its condition was made true is still ahead of the wakeup |
| `SleepLock.NextOk` | kernel/sleeplock.c:22-41 | every step of acquiresleep and releasesleep is a step of sleep and wakeup for the condition "free", and keeps the invariant |
| `SleepLock.KeepsRules` | kernel/sleeplock.c:22-41 | the sleep-lock code never breaks the rules of sleep and wakeup: a process that cannot go on waits for a spinlock that is taken, or sleeps |
| `SleepLock.KillOk` | kernel/proc.c:579-597 | waking a sleeper by kill keeps the invariant |
| `SleepLock.MutualExclusion` | kernel/sleeplock.c:22-52 | in every run at most one process has the sleep-lock, and holdingsleep is true of exactly that one |
| `SleepLock.NoLostWakeup` | kernel/sleeplock.c:22-41 | in every run, with the sleep-lock free and nobody in its spinlock, no process sleeps on it or is about to |
| `SleepLock.WakeupReachesAll` | kernel/proc.c:560-573 | in every run a sleeper on a free lock is still ahead of the releaser's wakeup |
| `ExitWait.NextOk` | kernel/proc.c:273-428 | every step of fork, exit, reparent, wait and kill keeps the invariant |
| `ExitWait.AdoptOk` | kernel/proc.c:324-334 | a child handed to init, zombie or not, cannot be slept through: init is about to be woken |
| `ExitWait.DieOk` | kernel/proc.c:361-374 | the process becomes a zombie while its parent is awake, though the wakeup came before |
| `ExitWait.DropOk` | kernel/proc.c:419-426 | wait goes to sleep only without a zombie child |
| `ExitWait.ReapOk` | kernel/proc.c:396-413 | reaping frees one slot and affects no other process |
| `ExitWait.NextRecorded` | kernel/proc.c:273-428 | every step keeps the record of pids, exits and reapings consistent |
| `ExitWait.LivingParent` | kernel/proc.c:273-379 | in every run every published process but init has a parent that is neither unused nor a zombie |
| `ExitWait.NoMissedExit` | kernel/proc.c:340-428 | in every run, with wait_lock free, no process that sleeps in wait, or is about to, has a zombie child |
| `ExitWait.ReapedOnce` | kernel/proc.c:384-428 | in every run no pid is reaped twice, and each with the status it exited with |
| `ExitWait.ReapedByParent` | kernel/proc.c:396-413 | whoever reaps is the current parent of a zombie, and gets that zombie's pid and status |
| `Tcp.View.AckOk` | kernel/tcp.c:95-123 | the window of every acknowledging segment ends exactly at the end of the receive buffer, counted in the peer's stream from the numbers on the wire, and no earlier segment advertised more |
| `Tcp.View.EdgeOnWire` | kernel/tcp.c:276-281 | in every synchronised state rcv.nxt + rcv.wnd is, modulo 2^32, the right edge of the buffer in the stream, one further after the FIN |
| `Tcp.View.Unwrapped` | kernel/tcp.c:429-443 | once established, iss < snd.una <= snd.nxt for under 2^31 bytes sent, given the bound of do_rand |
| `Tcp.Conn.Connect` | kernel/tcp.c:410-452 | from CLOSED only: SYN with the initial number goes out, state SYN_SENT |
| `Tcp.Conn.Incoming` | kernel/tcp.c:134-305 | the control block after any segment is the one that the specification gives, field by field, and the invariant is kept |
| `Tcp.Conn.Handshake` | kernel/tcp.c:181-217 | the handshake is the one specified: the window, the numbers, the answer and the state, on every segment |
| `Tcp.Conn.AckArrives` | kernel/tcp.c:233-270 | the processing of the acknowledgement is the one specified, and so is the decision whether to go on to the data |
| `Tcp.Conn.DataArrives` | kernel/tcp.c:271-285 | in-order data goes where the specification puts it, at the end of the buffer, and is acknowledged with the remaining window |
| `Tcp.Conn.FinArrives` | kernel/tcp.c:286-303 | the FIN is counted once and acknowledged, and the state moves on as specified |
| `Tcp.View.ShakeOk` | kernel/tcp.c:181-217 | ESTABLISHED exactly on SYN with an acknowledgement of our SYN, from SYN_SENT, and the invariant is kept |
| `Tcp.View.AckedDoes` | kernel/tcp.c:233-270 | snd.una only grows, and only to a number that was sent; FIN_WAIT1 moves on exactly when everything is acknowledged, CLOSING likewise, and LAST_ACK ends the connection |
| `Tcp.View.FedOk` | kernel/tcp.c:271-285 | what the buffer holds stays the unread part of the peer's stream, within the window that was advertised |
| `Tcp.View.EndedOk` | kernel/tcp.c:286-303 | the FIN ends the stream, in every state |
| `Tcp.View.IncomingOk` | kernel/tcp.c:134-305 | whatever the network loses, repeats or reorders of the segments of a peer that keeps within windows it was sent, the accepted bytes stay a prefix of its stream and fit the buffer |
| `Tcp.View.IncomingDoes` | kernel/tcp.c:134-305 | the next segment in order is accepted and acknowledged, and no other is; iss and snd.nxt stay; the state is the one of the diagram; sleepers are woken exactly when data came or the state changed, other than to FIN_WAIT2 |
| `Tcp.StuckForEver` | kernel/tcp.c:286-303 | in FIN_WAIT2 with the peer's FIN received and its stream read, no segments the peer can send change the state or wake anybody |
| `Tcp.ClosedTogether` | kernel/tcp.c:286-303 | a run into that state for every stream that fits the buffer: tcp_close on one side and on the other before it saw the FIN; without data in it nobody wakes tcp_close |
| `Tcp.Conn.Send` | kernel/tcp.c:455-474 | sends exactly in the states that send, and leaves the control block specified: one segment more, snd.nxt further by the length modulo 2^32 |
| `Tcp.View.SendsOk` | kernel/tcp.c:455-474 | sending keeps the invariant; snd.una <= snd.nxt is kept if and only if snd.nxt does not wrap |
| `Tcp.Conn.Read` | kernel/tcp.c:476-504 | the next bytes of the peer's stream, none skipped and none twice; end of stream only when all was read, and then exactly unless the state is FIN_WAIT2; it sleeps exactly when nothing is buffered in a receiving state; a socket never connected yields zeros |
| `Tcp.View.TookOk` | kernel/tcp.c:494-500 | the bytes handed out are the next of the peer's stream, and the buffer keeps the rest of what was received |
| `Tcp.Conn.Close` | kernel/tcp.c:375-407 | one FIN, and the caller sleeps, exactly from the two states that may still send; in the others the control block is cleared at once |
| `Tcp.Conn.constructor` | kernel/tcp.c:355-372 | the control block that tcp_open hands out: in use, everything else zero, the window too, and nothing sent, received or read |
| `Tcp.Conn.Clear` | kernel/tcp.c:69-92 | the control block is unused and blank; what was read and sent stays as it was |
| `Tcp.Place` | kernel/tcp.c:221-224 | a segment whose number equals rcv.nxt is the next one: in a stream shorter than 2^32 - 1 numbers do not repeat |
| `Checksum.FoldOnce` | kernel/ip.c:40-41 | one folding step keeps the value modulo 65535 and makes it smaller |
| `Checksum.Checksum` | kernel/ip.c:26-44 | for every 16-bit length and pseudo-header sum the accumulator stays in 32 bits, folding ends, and the result is the complement of the folded sum |
| `Checksum.StoreAdds` | kernel/tcp.c:106-118 | storing into a zeroed aligned field adds the stored value to the sum |
| `Checksum.Verifies` | kernel/tcp.c:106-118 | with the checksum stored in its zeroed field the sum verifies to 0 |
| `Utils.Schrage` | kernel/utils.c:41-46 | the product modulo 2^31 - 1 without a large product |
| `Utils.NeverZero` | kernel/utils.c:41-46 | the generator never gets stuck at 0 |
| `Utils.DoRand` | kernel/utils.c:28-51 | one step of the Park-Miller generator on any 32-bit context, all intermediate values in 32 bits; the result is at most 0x7ffffffd |
| `Utils.ToggleTwice` | kernel/utils.c:5-14 | swapping the byte order twice gives the number back |
| `Names.InitialOk` | mkfs/mkfs.c:119-130 | the root alone is a tree with the right link counts |
| `Names.LinkedOk` | kernel/sysfile.c:142-154 | a new name for a file keeps tree and link counts if and only if the count, a short, is below 32767; at 32767 it becomes -32768 |
| `Names.UnlinkedOk` | kernel/sysfile.c:219-230 | taking a name away, of a file or an empty directory, keeps tree and link counts |
| `Names.CreatedOk` | kernel/sysfile.c:262-280 | a new file, device or directory with its "." and ".." keeps tree and link counts, always |
| `Names.DirCount` | kernel/sysfile.c:268-274 | the link count of a directory is below the number of its entries, which a file's largest size bounds; so it never reaches the limit of a short, and create never takes it over that |
| `Names.ReclaimedOk` | kernel/fs.c:337-351 | freeing an inode without links keeps tree and link counts |
| `Names.EmptyDirLinks` | kernel/sysfile.c:171-183 | an empty directory is named once, by its parent |
| `Names.UpToRoot` | kernel/fs.c:629-661 | in every state, from every live directory following ".." leads to the root |
| `LinkLimit.OneLinkTooMany` | kernel/sysfile.c:142-154 | there is a sound tree, with directories of legal size, where one more sys_link succeeds, leaves the count at -32768 and makes the sys_unlink of that name panic |
| `LinkLimit.LinkThenUnlinkPanics` | kernel/sysfile.c:212-213 | the sys_unlink of a name just linked panics if and only if the count was 32767 |
| `SysFile.Dirlookup` | kernel/fs.c:530-553 | the first entry in use with that name, or there is none |
| `SysFile.FreeSlot` | kernel/fs.c:569-575 | the first free entry, or the place past the end |
| `SysFile.Isdirempty` | kernel/sysfile.c:171-183 | true exactly when no entry after the first two is in use |
| `SysFile.FileTree.Dirlink` | kernel/fs.c:557-583 | the entry goes into the first free place; refused exactly when the name exists, and the panic exactly when it does not, no entry is free and the directory is as large as a file can be |
| `SysFile.FileTree.Link` | kernel/sysfile.c:121-167 | succeeds exactly for a file, a new name and a directory with room; a failure undoes the count; afterwards tree and counts are right if and only if the count was below 32767; it panics exactly when the directory has no room |
| `SysFile.FileTree.Unlink` | kernel/sysfile.c:186-240 | panics exactly when the inode named has a count below 1, which in a sound tree cannot happen; there it takes away exactly that name, or refuses for ".", "..", a missing name or a directory that is not empty |
| `SysFile.FileTree.Create` | kernel/sysfile.c:243-285 | a new inode under a new name, tree and counts kept; the existing file or device if a file was asked for; or 0 with nothing changed; the panics exactly when the name is new and there is no free inode, or no room in the directory |
| `SysFile.FileTree.Iput` | kernel/fs.c:333-358 | the last reference to an inode without links frees it, and the tree is kept |
| `Paths.Skipelem` | kernel/fs.c:600-622 | the next element of the path, cut to DIRSIZ, and where the rest begins; none exactly when there is none left |
| `Paths.Namex` | kernel/fs.c:629-661 | the inode that walking the elements from root or cwd reaches, or with nameiparent the directory before the last element and that element |
| `Paths.WalkInUse` | kernel/fs.c:629-661 | in a sound tree a walk that starts at an inode with links meets only inodes in use: ilock's panic on a free one cannot happen |
| `ShLex.Gettoken` | user/sh.c:266-308 | the first token of the rest of the line, where it lies, and the cursor at the tokens after it |
| `ShLex.Peek` | user/sh.c:311-320 | whether the next token begins with one of the characters; only white space is skipped |
| `ShLex.LexPrint` | user/sh.c:266-308 | tokens, printed, are read back as themselves |
| `ShLex.RoundTrip` | user/sh.c:266-446 | any command tree of legal words, printed as text, is parsed back as itself with nothing left over |
| `ShParse.ParseShow` | user/sh.c:328-446 | any command tree written as tokens is parsed back as itself with nothing left over |
| `ShParse.ReadBlock` | user/sh.c:400-413 | a parenthesised command followed by redirections is read back |
| `ShParse.ReadCommand` | user/sh.c:416-446 | a simple command with its words and redirections is read back |
| `ShParse.ReadPipe` | user/sh.c:362-372 | a pipeline is read back |
| `ShParse.ReadLine` | user/sh.c:345-359 | a list with its background marks is read back |
| `Sh.Parseredirs` | user/sh.c:375-397 | agrees with the grammar on the tokens of the line, panics included |
| `Sh.Parseexec` | user/sh.c:416-446 | agrees with the grammar, panics included |
| `Sh.Parseblock` | user/sh.c:400-413 | agrees with the grammar, panics included |
| `Sh.Parsepipe` | user/sh.c:362-372 | agrees with the grammar and ends, because the rest of the line gets shorter |
| `Sh.Parseline` | user/sh.c:345-359 | agrees with the grammar and ends |
| `Sh.Parsecmd` | user/sh.c:328-342 | a command exactly when the whole line is one |
| `Sh.Nulterminate` | user/sh.c:450-493 | NULs at the ends of the words and file names of the command, nothing else changed |
| `Sh.ReadsAs` | user/sh.c:450-493 | a word whose end was cut reads as exactly itself: no NUL landed inside it |
| `Sh.AllRead` | user/sh.c:450-493 | every word and file name of the command reads as exactly itself |
| `Sh.ParsecmdInPlace` | user/sh.c:328-342 | parsing the line in memory: every argument and file name of the result reads as exactly its word |

## Left out

What the model takes for granted:

- One device: `ROOTDEV` is the only one, and `dev` comparisons between inodes are not modelled.
- Spinlocks: `acquire` and `release` are atomic steps; the plain-C test-and-set and memory ordering are not modelled.
- Sleep-locks of inodes: a caller of `Readi` or `Writei` is assumed to have obtained the lock; that sleep-locks exclude each other is proved in `sleeplock.dfy`. The locks of buffers are modelled step by step.
- The log over the cache: `log.dfy` uses `Bget` and `Brelse` with nobody in between on the same buffer, since a commit runs alone; interleaved uses are in `cacheruns.dfy`.
- The whole file system on the disk: `crashfs.dfy` asks of the caller that types and link counts of inodes fit a short.
- Commit: `Log.Log.Commit` runs without other operations in between, which `GroupCommit.OneTransaction` and the `committing` flag justify.
- The disk: a block write is atomic, and a crash loses memory between two writes.
- Devices, network and `sbrk`: the virtio device is a set of steps, the network delivers any segment a peer sent in any order and number, and the answer of `sbrk` is a parameter.

What is modelled more simply than it is written:

- FileSystem.Volume.Iupdate: works on a table of inodes without major and minor numbers; the records in the inode blocks are in `inodetable.dfy`.
- FileSystem.Volume.Ialloc: works on that table too; `InodeTable.Itable.Alloc` does the same on the blocks.
- FileSystem.Volume.Writei: one in-memory inode at a time differs from the table, so two processes inside `writei` on different files at once are not covered.
- `copyin` into a buffer: it is all or nothing for each block; a copy that fails in the middle of a block leaves bytes in an unlogged buffer that this model does not show.
- FileSystem.Volume.Filewrite: assumes that nobody else writes the file between two of its transactions.
- Vm.Machine.Mappages: one page at a time, which is how user address spaces use it; the multi-page kernel mappings are not modelled.
- Vm.Machine.Uvmunmap: the page is freed after its entry is cleared, where the code frees it first; nothing runs in between. Pages are freed below the trapframe and kept above it, as all callers ask for.
- Physical pages: they are tables, data or junk; the byte patterns that `kalloc` and `kfree` leave are only "junk".
- Tcp.Conn.Incoming: 20-byte headers, a peer that keeps within a window it was sent, and a stream shorter than 2^32 - 1 bytes, because the code subtracts the option length twice and only tests sequence numbers for equality.
- Tcp.Conn.Close: what a reader asleep on the same socket sees when the control block is cleared under it is not modelled.
- SysFile.FileTree.Link: directories are live, and failures of path lookup before the call are not modelled.
- SysFile.FileTree.Create: running out of blocks is the panic of `balloc`, which is part of `fs.dfy` and not of the name space.
- Paths.Namex: the panic of `ilock` on a free inode is not an outcome of the method; in a sound tree a walk that starts at an inode with links meets none (`Paths.WalkInUse`).
- Virtio.Disk.IntrRound: the status panic of `virtio_disk_intr` cannot happen only because the modelled device completes every request with status 0; on a device that reports an error the kernel panics there.
- CrashFs.CommitVolume: the blocks that the operation changed go to the cache when it is over, in an order the caller gives, and no other operation is running; in the kernel each goes there as it is changed.
- Mkfs.Build: names are taken as given, after `user/` and the leading underscore are cut off; a list of files that needs more than 200 inodes is refused, where the program would go on.
- Sh.Parsecmd: the line holds no NUL character before its end, as `getcmd` reads it.

What is not modelled at all, because it would add easy members or is outside the repository's reach:

- Loading programs (`exec`, ELF, `uvminit`, `uvmclear`), the scheduler's loop and context switches.
- The inode cache (`iget`, `ilock` and reference counts of in-memory inodes), file descriptors, pipes and the console.
- TCP passive open, retransmission, options and reuse of control blocks after close; ARP, UDP, sockets, DNS and HTTP.
- Traps, UART, PLIC, PCI, the network card and all assembly code.
- Running the parsed command, and the other user programs.
