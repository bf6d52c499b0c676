# A verified model of the kernel's core

Dafny model, with proofs, of five parts of a small RISC-V teaching kernel: the block file system, the Sv39
page tables, the virtio disk driver, the page allocator with its spinlock, and the round-robin scheduler.
The sources modelled are those of `day6-process`, and of `day3-3-spinlock` where the lock and the allocator
under it are concerned.

## The parts

**File system** (`CString`, `Blocks`, `DirTree`, `FsSpec`, `FsLaws`, `Shape*`, `FsLists`, `FsWriting`,
`Layout`, `ListWalk`, `DirWalk`, `FileSystem`, `FsRuns`). `FsSpec` is an abstract machine: an ordered tree
of names, files with their bytes, a number of free blocks and a number of leaked ones. `FsLaws` says of the
tree alone when each code is returned and what has changed then. `FileSystem` holds the calls of `fs.c` as
methods that read and write blocks of a device, in the order in which the code does. A ghost *shape* says
which blocks are inode, list node or data block of which entry; `WF` ties it to the disk: every list ends in
one sentinel, every block carries its own address, chains are doubly linked, no block is reached twice. Each
call is proved to do to the disk what its abstract step does to the tree, the free blocks and the leaked
blocks, and `FsRuns.Boot` carries this over every sequence of calls, on paths that meet no file on their
way, from an all-zero disk. `Layout` gives the 1024 bytes of each record, shows that reading a record back
gives the same record, and compares the kernel's block allocator with the one of `mkfs`.

Where the code goes wrong, the abstract step says so (`Corrupt`, `Fault`) and the method proves what happens
then: with exactly two free blocks `fs_create` and `fs_mkdir` fail with -6 and -7 and leave a list without
end; `fs_write` short of blocks returns 0 and leaves a chain without end; `fs_mkdir` on a missing parent
reads through a null pointer; `fs_rmdir` on the empty root frees the root's inode, and on any other
directory loses one block; a file and a directory may share a name, and then the older one hides the
younger.

`find_inode` takes the first block of whatever it is in for a list node, of a file too. `ListWalk` is the
code on raw bytes, from any inode: how a walk along the components of a path ends there, with NULL, with an
inode, never, or outside what it has read, and that the code does so. `DirWalk` shows that this is what the
tree says as long as no file is on the way. On a path that goes on through a file the tree has nothing, and
`find_inode` answers NULL exactly when the walk over the bytes of the file ends so (`AnswersExactly`);
otherwise it returns a wrong inode, strays, or never returns, as in a file just created (`FreshFile`). The
calls are proved for all paths on which it answers as the tree does, runs of calls for those that do not go
on through a file.

**Page tables** (`Sv39`, `PageTable`). Memory is a map from page addresses to 512 words. `Sv39` holds the
translation algorithm of the RISC-V Privileged Architecture (20211203, sections 4.3.2 and 4.4), written
without reference to the code. `PageTable` holds `walk`, `map_page`, `map_pages` and `kernel_mapping` over
that memory, and a ghost record of which page serves as which table. What is proved is said in terms of the
hardware's walk.

**Virtio driver** (`VirtioDriver`, `VirtioProtocol`, `VirtioCalls`, `VirtioFairness`, `DiskBlocks`). The
descriptor functions are methods of a class over the arrays. The protocol is a state machine whose steps are
those of callers of `virtio_disk_rw`, of a conforming device (VIRTIO 1.1, sections 2.6 and 5.2) that may
take, serve and publish requests whenever it likes, and of the interrupt handler, one access at a time, with
16-bit indices that wrap. The device moves as many sectors as the length in the chain says. The result is
that concurrent calls act like calls on a sequential disk. `VirtioCalls` holds `virtio_disk_rw` and
`virtio_disk_intr` as methods over the driver's fields; each is proved to be a sequence of steps of the
protocol, the handler with steps of the device between its own, so that what holds of every run holds of the
code. `VirtioFairness` shows that a caller's wait ends under every schedule that is fair to device and
handler, and `DiskBlocks` that the blocks which the file system reads and writes are what such calls read
and write, two sectors each.

**Page allocator and spinlock** (`PageAllocator`, `MallocCalls`, `SpinLock`, `FreeUnlocked`). `page_init`,
`malloc` and `free` are methods over the flag table; the unbounded inner scan of `malloc`, the write before
the table for size 0 and the walk past it in `free` are outcomes of their own, with the exact condition for
each. `MallocCalls` says what calls made one after the other do, and what it means that some order explains
calls. `SpinLock` interleaves any number of harts, one access to the lock or to one table entry at a time,
and shows that the calls act one after the other. The lock is kept for good exactly when a call of `free`
has gone through the error return of `day3-3-spinlock`; a run that does so is given, nobody gets the lock
afterwards, and without such a call the lock word is 1 exactly while a hart is inside, who gives it up after
a bounded number of accesses unless its scan leaves the table.

From day 4 on `free` takes no lock, and `FreeUnlocked` shows what is left of these results. Live blocks
still never overlap, no page is lost, and an access leaves the table only in a scan. A `malloc` returns the
lowest run free at its return exactly when no entry cleared behind its scan has opened a lower one. The
calls act one after the other, in the order in which they return, exactly when no `malloc` returns with a
page of a block half cleared, or after such an opening by pages that are free for good. In general they do
not: two harts can come to five calls that no order explains in which each hart keeps its own.

**Scheduler** (`Scheduler`). A state machine on one hart: processes are created, then the scheduler goes
round the table; timer interrupts may come at any of its lines. The methods of `proc.c` are proved to be
steps of that machine. A process runs in every complete pass over the table once `exec` of a program has
been called on it, and never before. `exec` on a file that is no program keeps the process's lock; in every
run with such a call the scheduler stays at or before that slot of its first pass.

The repository has no documentation of these parts beyond comments. One message of the code says more than
it does: a process that "has exitted" is made ready again, and the model follows the code.

## Model

| member | source | states |
|---|---|---|
| CString.Strcmp | day6-process/src/string.c:33-39 | zero exactly when the second text stands at the first, negative exactly when the first comes first in byte order; the first need not end in its buffer if they differ before |
| CString.Strncpy | day6-process/src/string.c:52-61 | a field of n bytes, padded with zeros, that holds the text as a C string whenever the text is shorter than the field |
| CString.Tokenizer.constructor | day6-process/src/string.c:41-50 | the copy holds the path as a C string, and all its components are still to come |
| CString.Tokenizer.Strtok | day6-process/src/string.c:63-107 | one call gives the first pending component and leaves the others pending; the null pointer exactly when none is pending |
| CString.Tokenizer.SkipDelimiters | day6-process/src/string.c:77-86 | leading delimiters are passed over and no component with them |
| CString.Tokenizer.Cut | day6-process/src/string.c:87-105 | the component is terminated in place and the text after it is still what follows |
| CString.SplitPieces | day6-process/src/string.c:68-107 | a component is never empty and holds no delimiter |
| CString.SplitAppend | day6-process/src/fs.c:62-85 | appending "/name" to a path appends exactly one component |
| CString.SplitEnd | day6-process/src/string.c:77-86 | the delimiter is byte 47; a delimiter at the end adds no component, and a path without one is its one component |
| CString.SplitJoin | day6-process/src/string.c:63-107 | splitting a path built from plain names gives back the names |
| Blocks.Device.constructor | day6-process/src/fs.c:11-16 | a formatted disk is all free |
| Blocks.Device.Bread | day6-process/src/bio.c:10-20 | the block last written there; past the end of the disk the buffer stays as it was; block numbers count modulo 2^31, as they are passed on |
| Blocks.Device.Bwrite | day6-process/src/bio.c:22-31 | replaces that block and no other; past the end of the disk it fails and changes nothing |
| Blocks.Device.Dalloc | day6-process/src/bio.c:33-45 | the lowest free block from 1 on is claimed; MAX_BLOCK exactly when no block is free |
| Blocks.Device.Dfree | day6-process/src/bio.c:47-51 | that block becomes free and no other changes; past the end of the disk nothing does |
| FsSpec.StepConserves | day6-process/src/fs.c:134-488 | reachable, free and leaked blocks always add up; only a create or mkdir that finds too few blocks and a successful rmdir (one block) leak |
| FsSpec.RunConserves | day6-process/src/fs.c:134-488 | the sum is the same after any sequence of calls |
| FsLaws.ResolveExactly | day6-process/src/fs.c:62-85 | looking up gives an entry exactly when the components lead to it, each being the first entry of that name in its directory |
| FsLaws.CreateExactly | day6-process/src/fs.c:134-214 | each end of create exactly under its cause: 0 exactly for a directory without a file of that name and at least 3 free blocks, and then the directory holds its old entries in order and a file of that name without bytes, and nothing else has changed |
| FsLaws.MkdirExactly | day6-process/src/fs.c:309-387 | the same for mkdir, with the null pointer exactly for a path that leads nowhere |
| FsLaws.WriteExactly | day6-process/src/fs.c:216-264 | success exactly for a file whose blocks and the free ones hold the data; then that file has these bytes, as many blocks as they need or as it had, and nothing else has changed |
| FsLaws.ReadExactly | day6-process/src/fs.c:266-307 | the error exactly where there is no file; else the first min(n, size) of its bytes |
| FsLaws.RmExactly | day6-process/src/fs.c:389-439 | success exactly for a file; its entry goes, the others keep their order, and its blocks, its inode and its list node come free |
| FsLaws.RmdirExactly | day6-process/src/fs.c:441-488 | -1 exactly where there is no directory, -2 exactly when it has entries, success exactly when it is empty and not the root; then two blocks come free and one leaks |
| FsLaws.StepExactly | day6-process/src/fs.c:134-488 | so what each call that returns 0 in a run has changed: an entry appended, new contents, or an entry gone |
| FsSpec.WriteRead | day6-process/src/fs.c:216-307 | after a successful write a read of n bytes gives the first min(n, size) bytes written, for any old and new length |
| FsSpec.WriteElsewhere | day6-process/src/fs.c:216-307 | a path that leads elsewhere reads as before the write |
| FsSpec.FindAdded | day6-process/src/fs.c:187-209 | a fresh entry is found under its path at the end of its directory, and dropping it gives back the tree |
| FsSpec.CreateThenRm | day6-process/src/fs.c:134-214 | creating a fresh name and removing it restores tree, free count and leak |
| FsSpec.MkdirThenRmdir | day6-process/src/fs.c:441-488 | making a fresh directory and removing it restores the tree and leaks exactly one block |
| FsSpec.Shadowed | day6-process/src/fs.c:148-148 | when a directory already has the name, create succeeds, the path leads to the directory as before, and rm of it fails |
| FsSpec.ShadowedDir | day6-process/src/fs.c:441-456 | when a file already has the name, mkdir succeeds, the path leads to the file as before, and rmdir of it fails |
| Shapes.Account | day6-process/src/fs.c:93-132 | every block but block 0 is free, reachable or leaked, and only one of these |
| Shapes.Reached | day6-process/src/fs.c:93-132 | every inode of the shape is reached from the root by some path of the tree |
| Shapes.AbsPut | day6-process/src/fs.c:187-209 | changing one node of the disk tree changes the abstract tree at that path and nowhere else |
| ShapeGrow.GrowOk | day6-process/src/fs.c:187-209 | turning the sentinel into an entry and adding a new sentinel keeps the disk well formed and appends one entry to one directory |
| ShapeShrink.ShrinkOk | day6-process/src/fs.c:408-434 | unlinking first or later entry keeps the disk well formed, deletes exactly that entry and keeps the order of the rest |
| ShapeFile.RewriteOk | day6-process/src/fs.c:224-258 | new contents on an extended chain keep the disk well formed and change one file |
| FsLists.ListOfDirEnds | day6-process/src/fs.c:193-195 | in a well-formed directory every walk to the sentinel ends after as many steps as entries are left |
| FsLists.ChainOfFileEnds | day6-process/src/fs.c:401-406 | in a well-formed file every walk along the chain ends after as many steps as blocks are left |
| FsLists.OverrunList | day6-process/src/fs.c:197-205 | a list whose last cell points past the disk has no end, after any number of steps |
| FsLists.OverrunChain | day6-process/src/fs.c:236-244 | a chain whose last block points past the disk has no end |
| FsWriting.WriteStep | day6-process/src/fs.c:230-254 | one pass of the loop keeps: the chain written so far, the blocks claimed, the bytes stored, or, once an allocation failed, the broken chain |
| FsWriting.LoseStep | day6-process/src/fs.c:236-244 | an allocation that fails unnoticed leaves a chain without end |
| FsWriting.WrittenOk | day6-process/src/fs.c:256-258 | the finished chain and the new size are a well-formed file with the data as contents, and nothing else has changed |
| FsWriting.WriteAnswers | day6-process/src/fs.c:224-263 | what the loop and the inode leave is what the abstract write promises, or the broken chain with all other blocks in use unchanged |
| ListWalks.Lookup | day6-process/src/fs.c:66-79 | from any block, in a directory or not, when the loop is over in some round: whether it has found the name, and the inode then in hand |
| ListWalks.Rounds | day6-process/src/fs.c:69-77 | and while no round is its last, the code is in the loop, with that list node and that inode in hand, after any number of rounds |
| ListWalks.NeverOverSoon | day6-process/src/fs.c:69-77 | the loop is never over exactly when it goes on for as many rounds as there are pairs of a list node and an inode in hand |
| ListWalks.Component | day6-process/src/fs.c:65-85 | one component: NULL, or the walk goes on from the inode found with the next one |
| ListWalks.WalkPath | day6-process/src/fs.c:59-90 | the walk over the bytes component by component, wherever it returns: NULL exactly when it ends so, and else the inode with which it ends |
| ListWalks.ThroughFile | day6-process/src/fs.c:65-79 | from a data block that starts with 31 zero bytes the loop is never over, for any name |
| DirWalks.DirWalk | day6-process/src/fs.c:66-79 | in a directory the loop is over at the first entry with the name, or at the sentinel exactly when there is none |
| DirWalks.TreeEnding | day6-process/src/fs.c:59-90 | as long as the path meets no file on its way the walk over the bytes ends as the tree says |
| DirWalks.FollowsTree | day6-process/src/fs.c:59-85 | where the tree leads to a node, the walk of any further components goes on from its inode, and nothing else of the way matters |
| DirWalks.FalseMatch | day6-process/src/fs.c:69-85 | a data block whose bytes 16 to 23 name an inode with the name looked for makes the walk go on from that inode |
| FileSystems.FileSystem.GoodAnswers | day6-process/src/fs.c:47-91 | on a path that meets no file before its last component find_inode answers as the tree does |
| FileSystems.FileSystem.AnswersExactly | day6-process/src/fs.c:47-91 | of all other paths it does so exactly on those for which the walk over the bytes of the disk ends with NULL |
| FileSystems.FileSystem.IntoFile | day6-process/src/fs.c:65-85 | for a path through a file, where the tree has nothing, that is the walk of the rest from the inode of the file |
| FileSystems.FileSystem.ThroughMatch | day6-process/src/fs.c:69-85 | a file whose bytes name an inode with the name looked for: find_inode goes on there, and gives NULL exactly when the rest is missing there, and else a wrong inode |
| FileSystems.FileSystem.FreshFile | day6-process/src/fs.c:171-183 | on a path through a file just created find_inode never returns |
| FileSystems.FileSystem.FindInode | day6-process/src/fs.c:47-91 | wherever it returns: null exactly when the walk over the bytes ends with NULL, and else the inode with which it ends |
| FileSystems.FileSystem.FindAnswer | day6-process/src/fs.c:47-91 | where it answers: the inode the tree gives for the path split at '/', first match at each level; null exactly when a component is missing or looked for in a file |
| FileSystems.FileSystem.Taken | day6-process/src/fs.c:141-152 | whether the directory has an entry of that kind and name |
| FileSystems.FileSystem.EndOfList | day6-process/src/fs.c:192-195 | the walk ends, at the sentinel |
| FileSystems.FileSystem.Prepare | day6-process/src/fs.c:154-185 | two blocks become the records of an entry not yet linked; with fewer than two free, -3 and all of them leak |
| FileSystems.FileSystem.Link | day6-process/src/fs.c:187-209 | the entry is appended; with no third block the code of the failed write, a list without end, and of the blocks in use only its sentinel changed |
| FileSystems.FileSystem.AddLeaf | day6-process/src/fs.c:316-387 | the four ends of create and mkdir: name taken; no two blocks; exactly two, with a list without end and everything else in use unchanged; success |
| FileSystems.FileSystem.FsCreate | day6-process/src/fs.c:134-214 | refines the abstract create, for every free count; 0, -1, -2, -3 and -6 each exactly under their cause; with 0 the directory has one entry more, the last, a file of that name without bytes, and nothing else has changed |
| FileSystems.FileSystem.FsMkdir | day6-process/src/fs.c:309-387 | refines the abstract mkdir; each code exactly under its cause, a read through a null pointer exactly when the path leads nowhere; with 0 the directory has an empty directory more |
| FileSystems.FileSystem.FreeChain | day6-process/src/fs.c:397-406 | exactly the blocks of the chain become free |
| FileSystems.FileSystem.Unlink | day6-process/src/fs.c:408-431 | the entry's cell is freed and what pointed to it points to the next |
| FileSystems.FileSystem.RemoveFile | day6-process/src/fs.c:397-434 | the file leaves the tree and its blocks, its cell and its inode become free |
| FileSystems.FileSystem.FsRm | day6-process/src/fs.c:389-439 | refines the abstract rm: 0 exactly for a file, whose entry is gone then and whose blocks are free |
| FileSystems.FileSystem.DetachDir | day6-process/src/fs.c:457-483 | an empty directory leaves the tree and its sentinel leaks; for the root, the root's inode is freed and nothing else |
| FileSystems.FileSystem.FsRmdir | day6-process/src/fs.c:441-488 | refines the abstract rmdir, the root included; each code exactly under its cause |
| FileSystems.FileSystem.Advance | day6-process/src/fs.c:235-252 | store the block, then the next one of the chain, or a new one that holds whatever was on the stack |
| FileSystems.FileSystem.WriteChain | day6-process/src/fs.c:224-254 | the chain holds the data over every block boundary, or has lost its end because no block was left |
| FileSystems.FileSystem.WriteFile | day6-process/src/fs.c:224-258 | chain and size together: the file has the new contents and as many blocks as it needs or had |
| FileSystems.FileSystem.FsWrite | day6-process/src/fs.c:216-264 | refines the abstract write: -1 exactly where there is no file; with room for the data the file has these bytes and nothing else has changed; short of blocks it still returns 0, and of the blocks in use only those of that file have changed |
| FileSystems.FileSystem.ReadChain | day6-process/src/fs.c:279-301 | copies exactly the wanted bytes of the chain |
| FileSystems.FileSystem.FsRead | day6-process/src/fs.c:266-307 | the error exactly where there is no file; else count and bytes are the first min(n, size) of the file, and the rest of the buffer is unchanged |
| FileSystems.FileSystem.ReadInode | day6-process/src/fs.c:268-307 | the first min(size, length) bytes of the file; the error return, and the buffer as before, for a directory |
| FileSystems.FileSystem.FsInit | day6-process/src/fs.c:93-132 | refuses a disk whose block 0 is marked; else an empty root and all other blocks but two free, or -2 when there are not two free blocks, and then block 0 is marked already |
| FileSystems.Overrun | day6-process/src/fs.c:370-382 | with the third block missing, no number of steps finds the end of the directory's list |
| FileSystems.LinkedOk | day6-process/src/fs.c:187-209 | the three new blocks and the changed sentinel make the grown tree, without a leak |
| FileSystems.RemoveOk | day6-process/src/fs.c:408-434 | after unlinking, tree, free count and leak are those of the abstract removal |
| FsRuns.Call | day6-process/src/fs.c:134-488 | every call with a regular end, on any path that find_inode answers as the tree does, does its abstract step and returns its code |
| FsRuns.Run | day6-process/src/fs.c:134-488 | any sequence of calls on paths that meet no file on their way does to the disk what it does to the tree, return codes included |
| FsRuns.Boot | day6-process/src/fs.c:93-488 | from an all-zero disk: the disk follows the tree through every sequence of such calls, the blocks of the shape are as many as the tree needs, and with free and leaked ones they are all 2047 |
| FsRuns.WriteThenRead | day6-process/src/fs.c:216-307 | on the disk: a read after a successful write delivers min(n, size) bytes, exactly those written |
| FsRuns.WriteBetweenReads | day6-process/src/fs.c:216-307 | on the disk: a write changes no byte that another path reads |
| Layout.FlagRoundTrip | day6-process/src/bio.c:37-37 | the first byte of a block in use is not 0, and a block is all zero exactly when its first byte is |
| Layout.SuperRoundTrip | day6-process/inc/fs.h:9-16 | the root's block number is read back from the bytes |
| Layout.InodeRoundTrip | day6-process/inc/fs.h:18-33 | every field of an inode is read back from the bytes |
| Layout.CellRoundTrip | day6-process/inc/fs.h:35-45 | every field of a list node is read back from the bytes |
| Layout.DataRoundTrip | day6-process/inc/fs.h:47-53 | every field of a data block is read back from the bytes |
| Layout.SuperAsStruct | day6-process/inc/fs.h:9-16 | the root's block number is where the struct has it, each member at the first multiple of its alignment |
| Layout.InodeAsStruct | day6-process/inc/fs.h:18-33 | every field of an inode is where its struct has it, the name with its NUL |
| Layout.CellAsStruct | day6-process/inc/fs.h:35-45 | every field of a list node is where its struct has it |
| Layout.DataAsStruct | day6-process/inc/fs.h:47-53 | every field of a data block is where its struct has it |
| Layout.ClaimedBytes | day6-process/src/bio.c:38-40 | a block just allocated is a byte 1 and zeros |
| Layout.DiskFile.Dalloc | day6-process/mkfs/mkfs.c:77-101 | the lowest all-zero block from 1 on is filled with ones; 2048 exactly when there is none |
| Layout.SamePick | day6-process/mkfs/mkfs.c:83-98 | on the bytes of any image the kernel's flag test and the all-zero test pick the same block |
| Layout.OnesIsData | day6-process/mkfs/mkfs.c:80-81 | the block of ones is the bytes of a block in use |
| Layout.Agree | day6-process/mkfs/mkfs.c:77-101 | kernel and mkfs allocate the same block, and the image is again one the kernel can have |
| Sv39.RoundDown | day6-process/inc/vm.h:14-14 | the largest page boundary not above the address |
| Sv39.PteRoundTrip | day6-process/inc/vm.h:23-27 | page number and flags of an entry are read back from it |
| Sv39.IndicesDetermine | day6-process/inc/vm.h:30-34 | the three indices and the offset determine the address |
| Sv39.LeafTranslates | day6-process/src/vm.c:38-38 | the entry stored leads the hardware to the frame with these flags exactly when the permissions are legal for a leaf |
| Sv39.OnlyV | day6-process/src/vm.c:38-38 | its flags are V and, bit for bit, the permissions |
| Sv39.PointerEntry | day6-process/src/vm.c:21-21 | an entry for a table carries V alone and is followed by code and hardware to the same page |
| PageTables.HardwareSees | day6-process/src/vm.c:10-25 | on well-formed tables the hardware's three-level walk is decided by the last-level entry of the page |
| PageTables.TablesApart | day6-process/src/vm.c:13-24 | no two tables share a page, none is the root, and each is referred to by one entry only, which holds its address and V alone |
| PageTables.AddLevel1 | day6-process/src/vm.c:18-21 | a new level-1 table keeps the tree and every entry |
| PageTables.AddLevel0 | day6-process/src/vm.c:18-21 | a new level-0 table keeps the tree and every entry |
| PageTables.SetLeaf | day6-process/src/vm.c:38-38 | storing an entry changes that page's and no other, in spite of shared tables |
| PageTables.PageTable.StepDown | day6-process/src/vm.c:14-22 | one level down an old or a new table, or nothing exactly when the allocator is empty |
| PageTables.PageTable.Walk | day6-process/src/vm.c:10-25 | the slot of the address; no translation changes; one table for each region that had none, each out of the allocator |
| PageTables.PageTable.MapPage | day6-process/src/vm.c:27-40 | code 0: that page leads to the frame with these permissions and every other address translates as before; -1 and -2, with their reasons: nothing changes |
| PageTables.PageTable.MapNext | day6-process/src/vm.c:51-52 | one more page of the range is mapped, or was, or the allocator has run out |
| PageTables.PageTable.MapRange | day6-process/src/vm.c:48-52 | the loop ends and every page of the range below MAXVA has been dealt with; the others change nothing |
| PageTables.PageTable.MapPages | day6-process/src/vm.c:42-55 | with enough pages for the tables that the addresses of [va, va + size) lack, every x whose page holds one of them below MAXVA, and had no valid entry, goes to its place in its frame with these permissions, or to a fault if a leaf may not have them; every other x goes where it went before; with fewer pages each x does one or the other |
| PageTables.RangeTranslates | day6-process/src/vm.c:48-52 | what the loop over the pages means for each address in the hardware's walk |
| PageTables.TouchedPages | day6-process/src/vm.c:48-51 | the pages that hold an address of [va, va + size) below MAXVA are exactly those from the page of va to the page of the last one |
| PageTables.NeededIs | day6-process/src/vm.c:18-21 | the tables that they lack are those that the addresses of the range lack |
| PageTables.ConstantOffset | day6-process/src/vm.c:48-52 | when va and pa agree modulo 4096 every address mapped moves by pa - va |
| PageTables.PageTable.KernelMapping | day6-process/src/vm.c:57-67 | with 69 pages: the identity exactly on UART, disk, PLIC and kernel, a fault anywhere else, and 69 pages used |
| PageTables.KernelTranslates | day6-process/src/vm.c:57-67 | entries of those four ranges make the hardware's walk the kernel map |
| PageTables.KernelPermissions | day6-process/src/vm.c:57-67 | that map in numbers: identity on the four ranges, all readable and writable, the kernel alone executable, nothing for user code |
| PageTables.RunsShort | day6-process/src/vm.c:18-19 | the allocator runs out only when it had fewer pages than the range lacks tables |
| VirtioDriver.VirtioDisk.constructor | day6-process/src/virtio.c:114-140 | all descriptors free and the table zero |
| VirtioDriver.VirtioDisk.AllocDesc | day6-process/src/virtio.c:150-158 | the lowest free descriptor is taken, -1 when there is none |
| VirtioDriver.VirtioDisk.FreeDesc | day6-process/src/virtio.c:161-172 | panics exactly for a number out of range or a free descriptor; else that one is free and zero |
| VirtioDriver.VirtioDisk.FreeChain | day6-process/src/virtio.c:175-185 | on a chain of allocated descriptors it ends without a panic and frees exactly the chain |
| VirtioDriver.VirtioDisk.Alloc3Desc | day6-process/src/virtio.c:189-199 | 0 exactly when three are free, and then the three lowest in order; else free map and table are as before |
| VirtioDriver.VirtioDisk.Rollback | day6-process/src/virtio.c:192-196 | giving back what was taken restores the free map, and the table since free descriptors are zero |
| VirtioDriver.PicksLowest | day6-process/src/virtio.c:189-199 | the descriptors picked were free, are different and ascending, and are below every one that stays free |
| VirtioDriver.FormatIsChain | day6-process/src/virtio.c:231-249 | the three descriptors of a request form a chain |
| VirtioProtocol.StepKeeps | day6-process/src/virtio.c:201-318 | each of the 20 steps of callers, device and handler keeps the invariant: whose buffer the disk owns, where the one request is between submission and acknowledgement, what the handler has in hand in the window after it gave the buffer back, and what disk and replies owe to the transfers so far |
| VirtioProtocol.Released | day6-process/src/virtio.c:278-278 | freeing the chain of a call meets no panic and leaves every descriptor free and zero |
| VirtioProtocol.Served | day6-process/src/virtio.c:219-265 | the only transfer the device can find, with lengths and flags read as its standard has them, is the one the waiting caller asked for: sector, direction, buffer, bytes, and two sectors of 512 bytes |
| VirtioProtocol.Safe | day6-process/src/virtio.c:201-318 | in every interleaving: no null buffer, malformed chain or panic; at most one request in flight; every index trails the one it follows; free descriptors and three for the call under way are 8; the status byte is 0xff until the transfer |
| VirtioProtocol.ActsInOrder | day6-process/src/virtio.c:201-318 | calls take effect one at a time, in the order of the lock, each exactly once and before it returns, and return what the sequential disk answers |
| VirtioProtocol.ReadsLatest | day6-process/src/virtio.c:201-282 | a successful read returns what the calls before it last wrote to its block |
| VirtioProtocol.SamePlace | day6-process/src/virtio.c:202-202 | the first sector is twice the block number modulo 2^31, as the product is taken in 32 bits, so two numbers name the same sectors exactly when they agree modulo 2^31 |
| VirtioProtocol.WaitEnds | day6-process/src/virtio.c:269-273 | from every reachable state in which a caller waits, device and handler can end the wait |
| VirtioFairness.WaitEndsFairly | day6-process/src/virtio.c:269-273 | in every endless run in which device and handler are not kept from their steps for ever, a caller that waits gets to a state in which it may go on |
| VirtioFairness.Nearer | day6-process/src/virtio.c:284-318 | while a request is in flight each step of the device brings it nearer to publication, each step of the handler, once it is published, to acknowledgement, and no step of anyone leads away |
| DiskBlocks.OnBlocks | day6-process/src/bio.c:10-31 | in every run of the driver from the bytes of an image in which writes on the disk succeed: the disk holds the bytes of the image as whole-block accesses leave it, a call past the end fails, and a read that succeeds returns the bytes of its block as the accesses before it left it |
| DiskBlocks.Load | day6-process/src/virtio.c:202-202 | reading block b is reading sectors 2b and 2b + 1, in 32 bits |
| DiskBlocks.Store | day6-process/src/virtio.c:202-202 | writing them changes block b and no other |
| DiskBlocks.Halves | day6-process/src/virtio.c:237-237 | a block is its two sectors of 512 bytes, in order |
| DiskBlocks.SectorsOf | day6-process/src/virtio.c:202-202 | sectors 2b and 2b + 1 of the disk are the halves of block b |
| DiskBlocks.Perform | day6-process/src/bio.c:10-31 | the device of the file system gives these answers, for every block number |
| VirtioCalls.Disk.constructor | day6-process/src/virtio.c:57-147 | the fields after initialisation are those of the protocol's first state |
| VirtioCalls.Disk.Do | day6-process/src/virtio.c:201-318 | one more step on a run from the first state: the object always stands at the end of such a run |
| VirtioCalls.Disk.Allocate | day6-process/src/virtio.c:204-217 | taking the lock and three descriptors is two steps of the protocol, and the loop around it ends at once |
| VirtioCalls.Disk.WriteChain | day6-process/src/virtio.c:231-249 | a header of 16 bytes, 1024 bytes of data that the device reads or writes, one byte of status that it writes, chained in this order; the other descriptors are as before |
| VirtioCalls.Disk.Describe | day6-process/src/virtio.c:219-253 | header, chain, status and buffer are the protocol's step |
| VirtioCalls.Disk.Announce | day6-process/src/virtio.c:255-261 | ring slot and index are two steps, after which the caller waits |
| VirtioCalls.Disk.Submit | day6-process/src/virtio.c:201-265 | the code before the busy wait is five steps of the protocol, in this order |
| VirtioCalls.Disk.Finish | day6-process/src/virtio.c:277-280 | the code after the busy wait is two steps, and free_chain meets no panic |
| VirtioCalls.Disk.DeviceServes | day6-process/src/virtio.c:219-253 | a transfer by the device, with any status, is its step of the protocol, and disturbs nobody else |
| VirtioCalls.Disk.DeviceActs | day6-process/src/virtio.c:287-292 | any number of steps of the device leave the place of handler and caller as they were |
| VirtioCalls.Disk.Fetch | day6-process/src/virtio.c:300-302 | the handler finds the number of the request that has been published, whatever the device does between its reads |
| VirtioCalls.Disk.Look | day6-process/src/virtio.c:304-304 | its buffer is a registered one, never null |
| VirtioCalls.Disk.Check | day6-process/src/virtio.c:305-305 | and the status is that of its transfer |
| VirtioCalls.Disk.Mark | day6-process/src/virtio.c:305-310 | the result is stored |
| VirtioCalls.Disk.GiveBack | day6-process/src/virtio.c:311-311 | and then the buffer is its owner's |
| VirtioCalls.Disk.Advance | day6-process/src/virtio.c:314-314 | one entry more is passed, at the wrap too |
| VirtioCalls.Disk.Handle | day6-process/src/virtio.c:300-315 | one turn of the loop is seven steps of the handler, in this order, between steps of the device |
| VirtioCalls.Disk.Interrupt | day6-process/src/virtio.c:284-318 | with the device at work between any two accesses the handler's loop ends; its steps are so many turns and a last look that finds it level with the device |
| PageAllocator.HeapBounds | day6-process/src/mem.c:17-30 | pages are aligned and behind the table; they end inside the heap exactly when it holds at least 4112 bytes |
| PageAllocator.HeapApart | day6-process/src/mem.c:24-30 | and exactly then they are apart from each other: the product is taken in 32 bits, and in a smaller heap page 2^20 is page 0 again |
| PageAllocator.HeapUsed | day6-process/src/mem.c:18-20 | of the pages that fit with their entries one is left out and no more, and the first page is at the first boundary behind the table |
| PageAllocator.PagesForExactly | day6-process/src/mem.c:46-46 | the count is the least number of pages that holds the size, as long as the sum does not wrap and the count is a positive int; what it is beyond |
| PageAllocator.BytesInside | day6-process/src/mem.c:46-46 | so every byte asked for lies in a page of the block |
| PageAllocator.Heap.constructor | day6-process/src/mem.c:17-32 | all pages free, at those addresses |
| PageAllocator.Heap.Malloc | day6-process/src/mem.c:44-68 | for a size that can be counted: a block of the n pages with (n - 1) * 4096 < size <= n * 4096, the lowest run that fits, whenever one fits; null exactly when none fits and the last page is in use; past the table exactly when none fits and the last page is free; before the table exactly for no pages |
| PageAllocator.Heap.Free | day6-process/src/mem.c:70-83 | from the page on, the rest of its block is free and zero; a pointer between or below pages is ignored; one above the last page leads past the table, and no other |
| PageAllocator.Heap.Find | day6-process/src/mem.c:71-75 | the page with that address; past the table exactly for a pointer above every page |
| PageAllocator.Heap.ClearFrom | day6-process/src/mem.c:76-82 | the loop ends, and clears up to the first page not flagged 1 |
| PageAllocator.Heap.SetFlags | day6-process/src/mem.c:57-61 | the run is flagged 1 ... 1 2 and nothing else changes |
| PageAllocator.OnePage | day6-process/src/mem.c:48-55 | for one page the scan stays in the table, and fails exactly when no page is free |
| PageAllocator.BlockOf | day6-process/src/mem.c:57-61 | every page in use belongs to a block |
| PageAllocator.BlocksApart | day6-process/src/mem.c:57-61 | no page belongs to two blocks |
| PageAllocator.MarkAdds | day6-process/src/mem.c:57-61 | an allocation adds exactly one block, apart from all others |
| PageAllocator.ClearRemoves | day6-process/src/mem.c:76-82 | freeing the head of a block removes exactly that block |
| PageAllocator.ClearMark | day6-process/src/mem.c:44-83 | freeing what was just allocated restores the table |
| PageAllocator.ClearWellFormed | day6-process/src/mem.c:76-82 | freeing leaves well-formed flags exactly when the page is not inside a block |
| PageAllocator.ClearFreeZero | day6-process/src/mem.c:76-82 | free pages stay all zero |
| SpinLocks.StepKeeps | day3-3-spinlock/src/lock.c:7-17 | each call, swap, access and return keeps the invariant: a hart is inside exactly when it holds the lock, the table is what the completed calls left plus the progress of that hart, live blocks and blocks being freed are blocks of the table and different |
| SpinLocks.AccessKeeps | day3-3-spinlock/src/mem.c:45-82 | an access advances its call on the table it met and stays in the critical section; past the table only for a scan for which nothing fits while the last page is free |
| SpinLocks.ScanKeeps | day3-3-spinlock/src/mem.c:47-54 | each access of the scan: no run below fits; it leaves the table only when nothing fits and the last page is free |
| SpinLocks.SetKeeps | day3-3-spinlock/src/mem.c:55-60 | each access of the marking stays in the run |
| SpinLocks.ClearKeeps | day3-3-spinlock/src/mem.c:76-82 | each access of the freeing stays in the block and stops at its end |
| SpinLocks.MutualExclusion | day3-3-spinlock/src/lock.c:7-17 | for any number of harts and any interleaving at most one is in the critical section |
| SpinLocks.Serial | day3-3-spinlock/src/mem.c:43-85 | concurrent calls act as if made one after the other: each malloc gets the lowest run that fits, or nothing when none fits and the last page is in use, each free gives back its block |
| SpinLocks.NoOverlap | day3-3-spinlock/src/mem.c:43-85 | two live blocks never share a page |
| SpinLocks.NothingLost | day3-3-spinlock/src/mem.c:43-85 | and while no hart is inside, the pages in use are exactly those of blocks that are held or wait for the lock to be freed |
| SpinLocks.Abandoned | day3-3-spinlock/src/mem.c:74-74 | once free has returned through its error path no hart enters the critical section again |
| SpinLocks.AbandonedExactly | day3-3-spinlock/src/mem.c:74-74 | the lock is kept for good exactly when some call has gone through that return |
| SpinLocks.Abandons | day3-3-spinlock/src/mem.c:70-74 | any hart that gets the lock with a pointer that is no page's but below some page keeps it, whatever the flags are |
| SpinLocks.NeverAbandoned | day3-3-spinlock/src/mem.c:70-85 | in every run in which free is called on pages only, the lock word is 1 exactly while a hart is inside |
| SpinLocks.HolderMoves | day3-3-spinlock/src/mem.c:43-85 | the hart inside always has a step, and each brings it nearer to giving up the lock, unless its scan leaves the table |
| SpinLocks.OthersWait | day3-3-spinlock/src/lock.c:7-17 | no step of another hart puts it off |
| SpinLocks.LockReturns | day3-3-spinlock/src/mem.c:43-85 | so, as long as free is called on pages only, the lock is given up after a bounded number of its steps, with its call on record |
| SpinLocks.CallReturns | day3-3-spinlock/src/lock.c:7-17 | and a hart that tries when the lock is free gets it, and its call is made, or its scan leaves the table |
| FreeUnlocked.NoOverlap | day6-process/src/mem.c:44-83 | with free outside the lock live blocks still never share a page, in any interleaving |
| FreeUnlocked.NothingLost | day6-process/src/mem.c:44-83 | and when no hart is inside, the pages in use are exactly those of live blocks |
| FreeUnlocked.NotSerial | day6-process/src/mem.c:70-83 | a run from an empty table of two pages whose five calls no order explains in which each of the two harts keeps its own |
| MallocCalls.NoOrder | day6-process/src/mem.c:44-83 | the calls of two harts are explained by no order when theirs cannot be merged |
| FreeUnlocked.SerialExactly | day6-process/src/mem.c:44-83 | in every run the calls act one after the other, in the order in which they return, exactly when no malloc has returned with a page of a block half cleared, or after an entry cleared behind its scan opened a lower run of pages free for good |
| FreeUnlocked.SerialIfKeptOut | day6-process/src/mem.c:44-83 | so they do in every run in which no free writes while a malloc is inside, and no malloc gets in while a block is half cleared |
| FreeUnlocked.LowestExactly | day6-process/src/mem.c:48-63 | a malloc returns the lowest run free at its return, or nothing when there is none, exactly when no entry cleared behind its scan has opened a lower one |
| FreeUnlocked.NullExactly | day6-process/src/mem.c:48-63 | a malloc that returns nothing has found the last page in use |
| FreeUnlocked.Nearer | day6-process/src/mem.c:44-83 | each step of a hart inside malloc or free, and its swap when the lock is free, brings it nearer to the end of its call, unless it leaves the table, and steps of others do not put it off |
| FreeUnlocked.FaultIsScan | day6-process/src/mem.c:51-55 | an access leaves the table only in a scan of more than one page that has seen the last page free |
| FreeUnlocked.FoundApart | day6-process/src/mem.c:51-56 | a run the scan has found meets no live block and no block half freed |
| FreeUnlocked.OthersOk | day6-process/src/mem.c:58-61 | marking or clearing a page leaves the flags of every other block, and the progress of every other hart, as they were |
| Schedulers.StepKeeps | day6-process/src/proc.c:101-120 | each line of the scheduler, timer interrupt and return keeps the invariant: who is current, running and locked, different pids, and switches at exactly the ticks at which a ready process was met |
| Schedulers.SwitchRecords | day6-process/src/proc.c:113-116 | a switch is recorded at the tick at which the scheduler met a ready process, and only then |
| Schedulers.Safe | day6-process/src/proc.c:101-120 | at most one process is running; it is the current one and its lock and sched_lock are held; pids differ |
| Schedulers.RoundRobin | day6-process/src/proc.c:108-120 | between a switch to one process and the next switch to it every other process that was ready at the first is switched to exactly once |
| Schedulers.ReadyExactly | day6-process/src/proc.c:78-95 | in every run a created process is ready, from then on, exactly when exec of a program has been called on it |
| Schedulers.KernelReady | day6-process/src/timer.c:31-35 | the kernel's own process is ready exactly once it has been switched from or interrupted |
| Schedulers.RunsExactly | day6-process/src/proc.c:108-120 | in every run, a process runs in a visit of the scheduler only if a program has been executed on it, and in every visit to it that is over if one has |
| Schedulers.Dispatched | day6-process/src/os.c:33-41 | so once a program has been executed on a slot, its process runs in every complete pass over the table |
| Schedulers.StuckAt | day6-process/src/proc.c:84-84 | the scheduler never gets past a process whose lock a failed exec kept |
| Schedulers.FailedExec | day6-process/src/proc.c:84-84 | in every run with an exec of no program on slot k, the scheduler never gets past k, and has switched to slots below k only, in its first pass |
| Schedulers.NeverBlocked | day6-process/src/proc.c:108-120 | without a failed exec it can always go on |
| Schedulers.Kernel.AllocPid | day6-process/src/proc.c:18-27 | the next pid, once |
| Schedulers.Kernel.CreateProc | day6-process/src/proc.c:41-64 | the lowest unused slot becomes used, with the next pid, and no other changes; nothing exactly when all are in use |
| Schedulers.GetElfEntryPoint | day6-process/src/proc.c:66-76 | -1 exactly for a file that does not begin with the magic number, or whose entry point wraps to it |
| Schedulers.Kernel.Exec | day6-process/src/proc.c:78-95 | 0 exactly for a program, and then its process is ready and its lock free; else 1, and the lock is kept; nothing else changes |
| Schedulers.Kernel.ProcExec | day6-process/src/proc.c:101-106 | the new process is current and the old one ready |
| Schedulers.Kernel.Visit | day6-process/src/proc.c:111-118 | one turn: a step sequence of the machine that switches exactly to a ready process |
| Schedulers.Kernel.Scheduler | day6-process/src/proc.c:108-120 | a pass switches once, in order, to every process ready at its start and to no other |
| Schedulers.SlotsExactly | day6-process/src/proc.c:110-116 | these are every runnable slot once, in the order of the table, and no other |

## Left out

- FileSystems.FileSystem.FindInode: what it returns where the walk over the bytes strays: for a path without components other than "/", whose result is copied from memory never written; where a false match is no inode and names a first block past the end of the disk; and in a comparison of a component of 1022 bytes or more that leaves the block. Where the walk never ends there is no result (ListWalks.Rounds).
- FileSystems.FileSystem.FsCreate: names have fewer than 256 bytes, as the field needs; longer ones are stored without their NUL. So for FsMkdir. These, FsRm, FsRmdir, FsWrite and FsRead take the paths on which find_inode answers as the tree does; what they do to a wrong inode is not modelled.
- FsRuns.Run: a run is on paths that meet no file on their way (FsSpec.Runs), although FsRuns.Call takes more: whether find_inode answers on a path through a file depends on bytes that the tree does not have. So for FsRuns.Boot.
- FileSystems.FileSystem.FsRead: the buffer has room for at least the bytes asked for; overrunning a shorter one is not modelled.
- PageTables.PageTable.MapPage: physical addresses from 2^56 on and permissions beyond the ten flag bits, which would set reserved bits of an entry.
- PageTables.PageTable.MapPages: ranges whose last page is the last of the 64-bit address space or wraps round it, and physical ranges above 56 bits.
- PageTables.PageTable.Walk: the allocator under it is a set of free, aligned pages; which of them malloc picks is the matter of PageAllocator.
- PageAllocator.Heap.Free: what the code does past the table, once it is there.
- PageAllocator.Heap.constructor: a heap of fewer than 4112 bytes, for which page_init would write 2^32 - 1 entries (HeapBounds shows that only then the pages leave the heap).
- DiskBlocks.OnBlocks: a device that fails a write on the disk, which leaves no image of blocks; VirtioProtocol covers it, the file system does not.
- SpinLocks.Serial: a free is called on a block that is held, or with a pointer that is no page's address but below some page; one above every page leads past the table (PageAllocator.Heap.Free); freeing the inside of a block is stated for one caller (PageAllocator.ClearWellFormed).
- FreeUnlocked.SerialExactly: a free of a pointer between or below pages does nothing here, and is no step; one above every page, which leads past the table (PageAllocator.Heap.Free), is not made.
- VirtioProtocol.Safe: describing a request and freeing its chain are one step each, since no other party looks at what they touch, and so is a transfer by the device; the lock around a call is taken as proved by SpinLocks.
- VirtioCalls.Disk.Interrupt: callers take no step while a method is under way, nor the handler during a call, nor the device during the code of a caller; those interleavings are the matter of VirtioProtocol. The busy wait itself is a step of the protocol.
- VirtioFairness.WaitEndsFairly: the caller is able to go on; that it is scheduled is not part of the result.
- Schedulers.RoundRobin: a switch of contexts is one step, and one hart has the scheduler; what a process computes and the registers it saves are not modelled.
- Schedulers.Kernel.Exec: what it reads from the file is a parameter, the pages it maps are left to MapPages, and it is called before the scheduler starts, as kernel_main does.
- Schedulers.Kernel.Visit: no failed exec has kept a process's lock; FailedExec says what happens after one. So for Schedulers.Kernel.Scheduler.
- dump_fs and dump_directory: they only print.
- Failed reads and writes of the file system's device other than past its end, crashes, and the memory that find_inode, bread and bwrite take from malloc.
- virtio_disk_init beyond the state it leaves, MMIO registers, fences and weak memory.
- Access and dirty bits, the TLB and satp, superpages made by software, and stack guard pages.
- User programs, traps, PLIC, CLINT, UART, printf, memcpy and memset.
- fopen, fseek and their kin in mkfs; the disk image is an array of blocks.
