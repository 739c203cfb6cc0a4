# A verified model of the rCore kernel and its file system

This project models the five parts of the kernel and of the `easy-fs` crate that carry the most state, and proves
what they promise over all inputs and all runs. `dafny verify dfyconfig.toml` checks everything.

**easy-fs** (`BlockCache`, `Bitmap`, `Geometry`, `IndexTree`, `FileBytes`, `DiskInode`, `Fs*`, `Efs`, `Vfs`,
`DirEntries`, `Directory`, `Mkfs`, `Volume`). A write-back cache of 16 blocks over one device, two bitmaps and an
inode area laid out on the disk, inodes with 28 direct, one indirect and one double-indirect index, files, and one
root directory. Every layer is proved against a simple one: the cache against a flat array of blocks, the bitmap
against "take the least free number", the index tree against a list of owned blocks in a fixed slot order, a file
against a byte sequence, the directory against an insertion-ordered list of names. At the top,
`Volumes.MountedVolume.Run` says that every run of creates, writes, clears, reads, look-ups and listings on the disk
gives the replies of the same run on a list of named byte sequences, and `Volumes.Lifetime` says the same from
formatting an arbitrary device, across opening the file system again from what is on it.

**Virtual memory** (`Frames`, `PageTree`, `PageTable`, `Spaces`, `MemorySet`, `Mmap`, `Fork`, `ForkGuard`, `Machine`,
`MachineRuns`). A stack allocator of frames; three-level page tables stored in those frames; address spaces whose areas
own data frames; mmap, munmap, fork, exit and drop; the kernel's own space with its stacks. The page table refines a
finite map on 27-bit page numbers, and it is stated exactly on which pages it agrees with the walk that sections 4.3.2
and 4.4 of the RISC-V Privileged Architecture, version 1.11, prescribe for the hardware. Over every run of the machine
each frame has exactly one owner, and a space changes through its own operations only, byte for byte. Where the code
panics on what a process may ask for, the exact condition is proved: mmap of a page number that another page shares 27
bits with, fork after a munmap, fork with too many table nodes for the reserve of its memory check.

**Processes** (`Process`, `Kernel`). Dispatch, yield, fork, spawn, exit, wait and the release of task blocks as
steps of a state machine over the task tree, the ready queue and the recycling identifier allocator.

**Pipes** (`Pipe`, `PipeProtocol`). The ring buffer, and any number of readers and writers that hold its lock for
one round at a time.

**Program arguments** (`ExecArgs`). The layout `exec` writes onto the user stack and the parser in `_start`.

## How to read it

Panics and failing assertions of the source are preconditions that the callers are proved to meet, or results of
their own (`MapResult.Panicked`, `ForkResult.Panic`, `None` of `FindPteCreate` and of mmap) where the source can really
run into them. Large invariants are written `forall k {:trigger Open(k)} :: ...` so that proofs which only pass them
along treat them as one atom ("sealed" in the comments); `Basics.Open` says more.

The handles of the block cache are named by block id. `BlockCacheManager.depth` is how many may exist at once; the file
system is proved for every depth from 3 to 16. With 3 this says that no operation ever nests more than three handles,
and `Acquire` asks for a block that is not held, so no operation locks a block it already holds. With 16 it is the
size of the cache, so the "Run out of BlockCache" panic is never reached.

Some things the code does that its comments do not say:

- mmap checks for overlap by whole page numbers but maps by 27 bits, so that it can get past its check and panic
  (`Mmap.AliasCall`); among sign-extended addresses it never does (`Machine.SignedMapsSucceed`).
- After a successful munmap a process cannot fork any more, whatever it maps later, until exec replaces its space: the
  areas keep their ranges, and from_existed_user copies every page of the range (`Machine.Unmap`, `Machine.Fork`).
- The memory check of sys_fork counts pages but no table nodes beyond a reserve of 100 (`ForkGuard.SparseFork`).
- mmap accepts ports 2 and 6, but the hardware faults on every access to such a page (`Mmap.UsablePorts`,
  `PageTree.HardwareAgrees`).
- A pipe read whose buffer is filled by the last byte in the ring does not return before more bytes arrive or all
  write ends are closed; likewise a write that ends exactly when the ring is full (`ReadRound`, `WriteRound`).
- waitpid with an address that is not writable reaps the child and returns -1 (`Kernels.Kernel.WaitPid`).
- An argument that contains a NUL reaches the program cut off there; `ExecThenStart` states exactly when all arguments
  arrive unchanged.
- `translate` may answer `Some` for an unmapped page, with an invalid entry (`PageTree.TranslateRefinesMap`).

## Model

| member | source | states |
|---|---|---|
| `BlockCaching.GetRefinesFlatDisk` | easy-fs/src/block_cache.rs:114-152 | Hit, miss and eviction keep the whole view of the disk, at most one entry per block and 16 in all, clean entries equal to the device; entries with a handle survive; fewer than 16 handles exclude the panic |
| `BlockCaching.StoreRefinesFlatDisk` | easy-fs/src/block_cache.rs:57-74 | A modification changes the view of its own block and nothing else, and keeps the cache invariant |
| `BlockCaching.BlockCacheManager.Request` | easy-fs/src/block_cache.rs:114-152 | The in-place queue operations do what the specification of a request says |
| `BlockCaching.BlockCacheManager.Acquire` | easy-fs/src/block_cache.rs:114-152 | For a block that is not held, with a handle to spare, the caller gets the block's current contents and the view stays |
| `BlockCaching.BlockCacheManager.Modify` | easy-fs/src/block_cache.rs:57-74 | Through a handle, exactly one block of the view changes; the device is not written |
| `BlockCaching.DropKeeps` | easy-fs/src/block_cache.rs:78-92 | Evicting an entry without a handle leaves the whole view as it was: a modified entry reaches the device, a clean one is what the device holds |
| `BlockCaching.EvictsInOrder` | easy-fs/src/block_cache.rs:114-152 | At most 16 entries; an entry is evicted only for a block that is not cached, when all 16 are in use, and it is the first in the queue without a handle; the new one goes to the back |
| `Bitmaps.TrailingOnesIsLeastZero` | easy-fs/src/bitmap.rs:54-61 | The number of trailing ones of a word that is not full is its least zero bit |
| `Bitmaps.AllocAddsOne` | easy-fs/src/bitmap.rs:62-66 | Setting the found bit adds exactly one number to the set the bitmap stands for |
| `Bitmaps.DeallocRemovesOne` | easy-fs/src/bitmap.rs:80-90 | Subtracting the bit of a set number removes exactly that number |
| `Bitmaps.LeastFreeIsSmall` | easy-fs/src/bitmap.rs:40-77 | The number handed out never exceeds how many are in use |
| `Bitmaps.Bitmap.Alloc` | easy-fs/src/bitmap.rs:40-77 | Returns the least free number and adds it, or None exactly when all are taken; only bitmap blocks change |
| `Bitmaps.Bitmap.Dealloc` | easy-fs/src/bitmap.rs:80-90 | Removes one number that is in use; the assertion on the bit holds |
| `Bitmaps.BitFormat` | easy-fs/src/bitmap.rs:10-18 | On the disk number i is bit i % 8 of byte i / 8 of the bitmap |
| `Geometries.PlannedIsSound` | easy-fs/src/efs.rs:35-54 | For every size with enough blocks the five regions tile the disk and the data bitmap has a bit for every data block |
| `Geometries.PlannedNumbers` | easy-fs/src/efs.rs:35-54 | The sizes and starts of the five regions in numbers |
| `Geometries.InodePlaces` | easy-fs/src/efs.rs:147-152 | Different inodes have different places, all inside the inode area |
| `Geometries.InodePlaceIs` | easy-fs/src/efs.rs:147-152 | Four inodes of 128 bytes to a block, in order |
| `Geometries.OpenRebuilds` | easy-fs/src/efs.rs:99-123 | The super block written by create gives back the same geometry |
| `Geometries.SuperFormat` | easy-fs/src/layout.rs:22-55 | The words of the super block |
| `Geometries.InodeFormat` | easy-fs/src/layout.rs:87-119 | The words of an inode |
| `Bytes.WordFormat` | easy-fs/src/block_cache.rs:57-74 | A stored word changes its four bytes, lowest first, and no other |
| `Geometries.InoReadsBack` | easy-fs/src/layout.rs:87-119 | Storing an inode in its block reads back as that inode and leaves the other three alone |
| `IndexTree.SetSlotAppends` | easy-fs/src/layout.rs:184-265 | Storing the next block number in the tree appends it to the owned blocks, keeps all earlier ones and writes only the index block that holds it |
| `IndexTree.SlotsForNext` | easy-fs/src/layout.rs:131-145 | The block count formula grows by the data block and exactly the index blocks that come with it, at the 28 and 156 boundaries too |
| `IndexTree.CountsIs` | easy-fs/src/layout.rs:121-150 | blocks_num_needed and total_blocks in numbers |
| `IndexTree.SlotsFrame` | easy-fs/src/layout.rs:153-182 | All look-ups depend on the index blocks alone |
| `FileBytes.RawWrite` | easy-fs/src/layout.rs:403-437 | Overwriting part of one data block lays the bytes over the file at that place and nowhere else |
| `FileBytes.RawGrows` | easy-fs/src/layout.rs:184-265 | Growing by zeroed blocks appends zeros to the file |
| `FileBytes.ContentByte` | easy-fs/src/layout.rs:362-399 | Byte p of a file is byte p % 512 of its data block p / 512 |
| `DiskInodes.DiskInode.GetBlockId` | easy-fs/src/layout.rs:153-182 | The block of a data block number: the direct entry, the word of the indirect block, or the word of the block that the double-indirect block names; it is the one in its slot |
| `DiskInodes.DiskInode.IncreaseSize` | easy-fs/src/layout.rs:184-265 | From any size, exactly the needed number of new blocks is consumed; the owned blocks become the old ones followed by the new ones; only index blocks are written |
| `DiskInodes.DiskInode.ClearSize` | easy-fs/src/layout.rs:271-357 | Returns precisely the owned blocks, each once, and leaves an empty inode |
| `DiskInodes.DiskInode.ReadAt` | easy-fs/src/layout.rs:362-399 | Delivers exactly the stored bytes, as far as buffer and file reach, and leaves the rest of the buffer |
| `DiskInodes.DiskInode.WriteAt` | easy-fs/src/layout.rs:403-437 | Lays the buffer over the stored bytes, touching data blocks only |
| `FsGrowth.GrowthIsSound` | easy-fs/src/vfs.rs:131-146 | Growing a file keeps the file system invariant, appends zeros and changes no other file |
| `FsChanges.WriteIsSound` | easy-fs/src/vfs.rs:233-239 | Overwriting keeps the invariant and changes one file only |
| `FsChanges.ClearIsSound` | easy-fs/src/vfs.rs:242-252 | Clearing keeps the invariant: the set bits are again exactly the owned blocks and every free block is zero |
| `FsChanges.AddIsSound` | easy-fs/src/vfs.rs:163-172 | A new inode keeps the invariant and every file |
| `FsChanges.StoreCloses` | easy-fs/src/vfs.rs:56-61 | Writing the edited inode back restores the inode table and changes no file |
| `Efs.EasyFileSystem.AllocData` | easy-fs/src/efs.rs:164-166 | The least free data block, as a block number of the device |
| `Efs.EasyFileSystem.DeallocData` | easy-fs/src/efs.rs:169-182 | The block is zeroed and its bit cleared; nothing else changes |
| `Efs.EasyFileSystem.TakeBlock` | easy-fs/src/efs.rs:164-166 | While fewer blocks are in use than the data area has, the new block lies inside the data area and belongs to nobody |
| `Efs.EasyFileSystem.TakeBlocks` | easy-fs/src/vfs.rs:131-146 | The loop of increase_size yields the requested number of distinct blocks that nobody owns |
| `Efs.EasyFileSystem.GiveBack` | easy-fs/src/vfs.rs:242-252 | The loop of clear zeroes and frees every listed block; the assertion in dealloc never fails |
| `Vfs.FileSystem.WriteInode` | easy-fs/src/vfs.rs:233-239 | The write overlays its bytes, a gap past the old end reads as zeros, no other file changes |
| `Vfs.FileSystem.ReadInode` | easy-fs/src/vfs.rs:225-230 | Exactly the stored slice |
| `Vfs.FileSystem.ClearInode` | easy-fs/src/vfs.rs:242-252 | The file is empty, its blocks are free, the length assertion holds, no other file changes |
| `Vfs.FileSystem.AddInode` | easy-fs/src/vfs.rs:163-172 | Inodes are numbered in order; the new one is empty and no file changes |
| `DirEntries.DirentReadsBack` | easy-fs/src/layout.rs:461-490 | A name of at most 27 bytes without NUL and its inode number come back from the 32 bytes of an entry |
| `DirEntries.DirentFormat` | easy-fs/src/layout.rs:461-490 | The 32 bytes of an entry |
| `DirEntries.EntryAt` | easy-fs/src/vfs.rs:174-187 | The i-th entry of the directory is the one written for the i-th name |
| `Directory.RootDirectory.FindInodeId` | easy-fs/src/vfs.rs:70-94 | The inode made for the name, or None |
| `Directory.RootDirectory.Find` | easy-fs/src/vfs.rs:97-112 | The number made for the name, with a block and offset at which exactly that inode is stored, or None when the name is not there |
| `Directory.PlacesApart` | easy-fs/src/vfs.rs:97-112 | Different names have inodes at different places |
| `Directory.RootDirectory.Ls` | easy-fs/src/vfs.rs:202-221 | The names in creation order |
| `Directory.RootDirectory.Create` | easy-fs/src/vfs.rs:149-198 | A taken name gives None and no change; a new one is appended with a new empty file whose inode is stored at the returned place; all other files stay |
| `Mkfs.Create` | easy-fs/src/efs.rs:29-96 | Whatever the device held, the result is a sound file system of the planned geometry with an empty root directory as inode 0 |
| `Mkfs.Reopen` | easy-fs/src/efs.rs:99-123 | The manager rebuilt from the super block fits the file system on the disk |
| `Volumes.OverwriteBytes` | easy-fs/src/vfs.rs:233-239 | A write byte by byte: the buffer, else the old byte, else zero |
| `Volumes.OpsMean` | easy-fs/src/vfs.rs:97-252 | What every operation replies and leaves, without naming how it is computed: create, write, clear, read, look-up and listing |
| `Volumes.ClearEmpties` | easy-fs/src/vfs.rs:242-252 | After a clear the file reads as empty; other files, look-ups and listings are as before |
| `Volumes.AllowedIs` | easy-fs/src/vfs.rs:149-252 | Exactly which operations a run may contain |
| `Volumes.ReadsSeeWrites` | easy-fs/src/vfs.rs:225-239 | A read of what was written returns it; reads of other files return what they did before |
| `Volumes.FindsCreated` | easy-fs/src/vfs.rs:97-198 | After create the name is found, other names where they were, and creating it again changes nothing |
| `Volumes.RoomIs` | easy-fs/src/efs.rs:35-54 | When a volume fits a disk, in numbers |
| `Volumes.BlocksIs` | easy-fs/src/layout.rs:131-145 | The blocks of all files together are the sum of theirs |
| `Volumes.AlwaysHasRoom` | easy-fs/src/efs.rs:42-43 | In every sound state files, index blocks and directory fit the data area |
| `Volumes.MountedVolume.Run` | easy-fs/src/vfs.rs:149-252 | Every run on the disk gives the replies, and leaves the files, of the same run on a list of named byte sequences |
| `Volumes.Lifetime` | easy-fs/src/efs.rs:29-123 | The same from formatting any device, across opening it again |
| `Frames.FrameMemory.constructor` | os/src/mm/frame_allocator.rs:56-60 | All frames of the range are free |
| `Frames.FrameMemory.Take` | os/src/mm/frame_allocator.rs:76-93 | The latest returned frame, else the next new one; None only when none is free |
| `Frames.FrameMemory.Alloc` | os/src/mm/frame_allocator.rs:133-139 | A free frame, cleared; no other frame changes |
| `Frames.FrameMemory.Dealloc` | os/src/mm/frame_allocator.rs:94-107 | The validity check passes for managed frames that are not free; the frame becomes free |
| `Frames.FrameMemory.UsableFrames` | os/src/mm/frame_allocator.rs:61-63 | The number of free frames |
| `PageTree.SameKey` | os/src/mm/address.rs:117-127 | Two page numbers share their entry exactly when they agree in 27 bits |
| `PageTables.Indexes` | os/src/mm/address.rs:117-127 | The loop yields the three 9-bit indexes, highest first |
| `PageTree.EntryReadsBack` | os/src/mm/page_table.rs:35-57 | An entry gives back page number, flags and validity |
| `PageTree.Grow` | os/src/mm/page_table.rs:109-113 | A new node on a fresh frame keeps the tree of distinct frames and changes no mapping |
| `PageTree.SetEntry` | os/src/mm/page_table.rs:139-153 | Storing an entry changes the finite map at one key only |
| `PageTree.TranslateRefinesMap` | os/src/mm/page_table.rs:119-159 | Translation is valid exactly for mapped pages, with their page number and flags plus V |
| `PageTree.HardwareAgrees` | os/src/mm/page_table.rs:119-135 | find_pte and the Sv39 walk find the same entry, or both none, if and only if the page is unmapped or has a sign-extended number and permissions that are readable or executable, and writable only if readable |
| `PageTree.HardwareSees` | os/src/mm/page_table.rs:79-117 | The Sv39 walk, which reads entries by the bit numbers of the standard, reaches a 4 KiB leaf with the mapped page number and flags exactly for mapped pages with a sign-extended number and such permissions; otherwise it faults |
| `PageTree.WalksDiffer` | os/src/mm/address.rs:117-127 | The page number 2^27: with page 0 mapped the software finds an entry, the hardware faults |
| `PageTree.TokenReadsBack` | os/src/mm/page_table.rs:89-95 | from_token of token is the same root, and the mode field is Sv39 |
| `PageTables.PageTable.FindPteCreate` | os/src/mm/page_table.rs:97-117 | The entry's place with all nodes on the way, the mapping unchanged; it panics only when fewer frames are free than nodes are missing |
| `PageTables.PageTable.Find` | os/src/mm/page_table.rs:119-135 | The place of the entry exactly when its leaf table exists |
| `PageTables.PageTable.Map` | os/src/mm/page_table.rs:139-145 | One key that was not mapped is added with the given page number and flags, nodes on free frames only; it panics only for a mapped key or want of a node frame |
| `PageTables.PageTable.Unmap` | os/src/mm/page_table.rs:148-153 | One key is removed, no frame moves |
| `PageTables.PageTable.TranslatePage` | os/src/mm/page_table.rs:156-159 | Valid exactly for mapped pages |
| `PageTables.PageTable.TranslateAddress` | os/src/mm/page_table.rs:160-170 | A mapped address keeps its offset in the page; an unmapped one gives None, or, when its leaf table exists, an address in frame 0 |
| `PageTables.RunTable` | os/src/mm/page_table.rs:139-153 | Any run of map and unmap leaves the table of the finite map after the same run |
| `PageTables.ApplyIs` | os/src/mm/page_table.rs:139-153 | What a run means: each map gives one key a page, each unmap takes one away |
| `Spaces.PageAddedAdds` | os/src/mm/memory_set.rs:382-407 | Mapping a page adds it, cleared, keeps all others and loses no frame |
| `Spaces.PageRemovedRemoves` | os/src/mm/memory_set.rs:408-418 | Unmapping a page removes it, keeps all others and loses no frame |
| `Spaces.OwnedIs` | os/src/mm/memory_set.rs:345-352 | A space owns exactly the frames of its nodes and of the pages of its areas |
| `MemorySets.MemorySet.MapOne` | os/src/mm/memory_set.rs:382-407 | The page is added with the area's permissions, nothing changes when no frame is free, and it panics only for a mapped key or want of a node frame |
| `MemorySets.MemorySet.MapSelf` | os/src/mm/memory_set.rs:382-407 | On an identically mapped area the page is the frame of its number, no frame is taken, all other pages stay |
| `MemorySets.MemorySet.MapAll` | os/src/mm/memory_set.rs:420-427 | All pages of the area in order; it stops early only when pages and new nodes outnumber the free frames, or at a mapped key |
| `MemorySets.MemorySet.Push` | os/src/mm/memory_set.rs:113-124 | The mapped area is kept, also the part mapped before a frame was missing; with enough frames it panics exactly when a page of the range shares its key with a mapped page |
| `MemorySets.MemorySet.PushIdentical` | os/src/mm/memory_set.rs:113-124 | All pages of the area are mapped to themselves; it fails only when a key is mapped already or the nodes outnumber the free frames |
| `MemorySets.MemorySet.HaveMapped` | os/src/mm/memory_set.rs:77-84 | Whether some area holds a frame for the page |
| `MemorySets.MemorySet.FramesUsed` | os/src/mm/memory_set.rs:85-91 | The lengths of all ranges, whether their pages are mapped or not |
| `MemorySets.MemorySet.UnmapOne` | os/src/mm/memory_set.rs:408-418 | The page and its frame are given up, all other pages stay |
| `MemorySets.MemorySet.UnmapRange` | os/src/mm/memory_set.rs:125-133 | Exactly the mapped pages of the range are removed; the areas keep their ranges |
| `MemorySets.MemorySet.RemoveArea` | os/src/mm/memory_set.rs:104-111 | The first area that starts there goes, with exactly its pages and frames; all other pages stay as they were; without such an area nothing changes |
| `MemorySets.MemorySet.RecycleDataPages` | os/src/mm/memory_set.rs:334-337 | Exactly the data frames become free, the table keeps its own |
| `MemorySets.MemorySet.Drop` | os/src/mm/memory_set.rs:61-64 | Exactly the frames the space owned become free |
| `Mmap.FewNodes` | os/src/mm/page_table.rs:109-113 | n pages in a row need at most n/512 + 2 leaf tables and n/2^18 + 2 middle tables |
| `Mmap.NeverShort` | os/src/task/mod.rs:111-113 | What passes the guard has frames for all its pages and table nodes, on machines of up to 49250 frames (the board has 2560) |
| `Mmap.UsablePorts` | os/src/task/mod.rs:168-174 | The hardware can use a mapping exactly for ports other than 2 and 6 |
| `Mmap.PortNumbers` | os/src/task/mod.rs:168-174 | In numbers, the permissions are 16 + 2 * port |
| `Machines.WritablePorts` | os/src/task/mod.rs:168-174 | A page that mmap made can be written from user mode exactly for ports 3 and 7 |
| `Mmap.MapVirtualPages` | os/src/task/mod.rs:104-140 | All outcomes for all arguments: past guard and overlap check the rounded range is mapped in full with cleared pages, unless a page of it has the key of a mapped page, which is exactly when it panics; a range that leaves the address space panics; -1 changes nothing |
| `Mmap.SignedIsClear` | os/src/task/mod.rs:124-129 | In a space of sign-extended pages, a range of such pages without the trampoline that passes the overlap check clashes with nothing |
| `Mmap.AliasCall` | os/src/task/mod.rs:124-133 | With page 0 mapped, mmap(2^39, 4096, port) passes all checks and panics |
| `Mmap.UnmapVirtualPages` | os/src/task/mod.rs:142-166 | All outcomes: all pages of a fully mapped range are removed, otherwise nothing changes |
| `Mmap.ShrankSigned` | os/src/task/mod.rs:142-166 | A process that only has sign-extended pages has only such pages after munmap |
| `Forks.NewUser` | os/src/mm/memory_set.rs:67-73 | A new space with the trampoline alone, in the highest page and with flags R and X, on frames that were free; three frames suffice |
| `Forks.NewKernel` | os/src/mm/memory_set.rs:146-202 | The kernel's space: the trampoline, every section mapped to itself, the table on frames that were free |
| `Forks.FromExistedUser` | os/src/mm/memory_set.rs:286-319 | The child has the parent's pages, permissions and contents on frames that were free; without one all frames are returned; the parent is unchanged; there is a child if and only if every area of the parent is fully mapped and frames are free for its pages and the nodes they need |
| `Forks.CopiedPage` | os/src/mm/memory_set.rs:305-310 | Copying a page makes it equal to the parent's and disturbs no page copied before |
| `Forks.BecomesDoomed` | os/src/mm/memory_set.rs:298-310 | When all pages of an area with a lost page can be copied, a later area maps that page again, and pushing that one panics |
| `ForkGuard.GuardCovers` | os/src/syscall/process.rs:92-95 | What passes the memory check of sys_fork has all frames, when the reserve pays for the nodes of the table |
| `ForkGuard.SparseFork` | os/src/syscall/process.rs:92-95 | A process with a page in each of 100 + initproc's leaf tables can pass the check with too few frames |
| `Machines.Machine.Map` | os/src/task/mod.rs:104-140 | mmap of one process leaves all other spaces untouched, their pages byte for byte, and every frame with one owner |
| `Machines.Machine.SignedMapsSucceed` | os/src/task/mod.rs:104-140 | A process that only has and asks for sign-extended pages never makes mmap panic |
| `Machines.UntouchedPage` | os/src/mm/memory_set.rs:382-432 | Every page of an untouched space is on the frame it was on with the contents it had |
| `Machines.Machine.Unmap` | os/src/task/mod.rs:142-166 | The same for munmap; after a success the areas are not fully mapped any more |
| `Machines.Machine.Push` | os/src/mm/memory_set.rs:113-124 | The same for loading an area or making a kernel stack, also when a frame was missing |
| `Machines.Machine.RemoveArea` | os/src/mm/memory_set.rs:104-111 | The same for removing an area, as when a kernel stack is dropped |
| `Machines.Machine.UserStore` | os/src/mm/page_table.rs:79-117 | A store from user mode, through the hardware walk, succeeds exactly on pages the process may write; the word reads back, and no other word of memory changes |
| `Machines.Machine.Fork` | os/src/mm/memory_set.rs:286-319 | All spaces, the parent's among them, are untouched, and a copy of the parent's is added if and only if its areas are fully mapped and frames suffice |
| `Machines.Machine.SysFork` | os/src/syscall/process.rs:89-110 | With too few frames for the check exactly the caller exits; otherwise a caller with full areas whose nodes the reserve pays for is copied |
| `Machines.Machine.Exit` | os/src/task/mod.rs:76-79 | Exactly the data frames become free; memory and all other spaces are untouched |
| `Machines.Machine.Drop` | os/src/mm/frame_allocator.rs:31-35 | Exactly what the space owned becomes free; memory and all other spaces are untouched |
| `Machines.Machine.Isolation` | os/src/mm/memory_set.rs:382-432 | No two pages of areas share a frame, and none is on a free frame or on a table node |
| `Machines.Machine.Conservation` | os/src/mm/frame_allocator.rs:56-64 | Free frames plus the frames of the kernel and of all processes are all frames |
| `Machines.FramesAddUp` | os/src/mm/frame_allocator.rs:56-64 | With one owner for every frame the numbers add up to the initial range |
| `MachineRuns.Run` | os/src/mm/memory_set.rs:382-432 | Over every run of mapping, unmapping, pushing, removing, storing, forking, exiting and dropping: each operation does what it is for, every frame has one owner, the counts add up, and a space that none of the operations belongs to is as it was, byte for byte |
| `MachineRuns.Boot` | os/src/mm/memory_set.rs:146-202 | From the frame range to a sound machine with the kernel's space |
| `Processes.RunKeeps` | os/src/task/mod.rs:33-89 | Over every run the invariant of tree, queue, identifiers and exit codes holds |
| `Processes.RootedAtInit` | os/src/task/mod.rs:67-73 | Every process that was not waited for descends from initproc |
| `Processes.LinksAgree` | os/src/task/task.rs:298-309 | Parent and children links are mutually consistent and children are listed once |
| `Processes.StacksApart` | os/src/task/pid.rs:66-70 | Kernel stacks of different tasks are apart by at least a guard page |
| `Processes.StackPlace` | os/src/task/pid.rs:66-70 | Where the stack of an identifier lies, in numbers, below the trampoline |
| `Processes.NeverIdle` | os/src/task/processor.rs:45-70 | While no task runs one is ready, so the "No more tasks" panic is not reached |
| `Processes.ReapedOnce` | os/src/syscall/process.rs:165-190 | No task is reaped twice, and each with the code it exited with |
| `Processes.ExitKeeps` | os/src/task/mod.rs:51-89 | Exit keeps the invariant: the task is a zombie with its code and without children, which are initproc's last children in their order; no other task changes |
| `Processes.WaitKeeps` | os/src/syscall/process.rs:165-190 | Taking a zombie off the list keeps the invariant, changes that list only and logs the child with its code |
| `Processes.ForkKeeps` | os/src/task/task.rs:252-326 | Fork keeps the invariant and adds one task: the last child of the caller, with an identifier nobody has, ready behind all others; no other task changes |
| `Processes.ForkThenWait` | os/src/syscall/process.rs:143-197 | Asked for the identifier that fork returned, waitpid finds that child and that it has not exited |
| `Processes.ReleaseKeeps` | os/src/task/pid.rs:32-39 | Recycling the identifier of a reaped task keeps identifiers distinct and removes that task only |
| `Kernels.Kernel.constructor` | os/src/task/mod.rs:100-102 | The kernel starts with initproc ready |
| `Kernels.Kernel.Run` | os/src/task/processor.rs:45-70 | The front of the ready queue, which is never empty, becomes the running task, the others move up |
| `Kernels.Kernel.Suspend` | os/src/task/mod.rs:33-48 | The running task becomes ready and the last of the queue |
| `Processes.FreshPidIsFree` | os/src/task/pid.rs:24-31 | The identifier handed out is the latest recycled one, else a new one; it belongs to no task and is not available any more |
| `Kernels.Kernel.AddChild` | os/src/task/task.rs:252-326 | One new task, the last child of the running one |
| `Kernels.Kernel.ExitCurrent` | os/src/task/mod.rs:51-89 | The loop over the children makes the exit step, field by field |
| `Kernels.Kernel.SysFork` | os/src/syscall/process.rs:89-110 | A child of the caller and its identifier, -1 and no change, or the exit with -1 for want of memory |
| `Kernels.Kernel.SysSpawn` | os/src/syscall/process.rs:267-290 | A child of the caller and its identifier, or -1 and no change |
| `Kernels.Kernel.WaitPid` | os/src/syscall/process.rs:143-197 | -1, -2 or the first zombie that was asked for, with its own exit code, exactly as children and pointer say; asked for one identifier it returns no other |
| `Kernels.Kernel.DropTask` | os/src/task/pid.rs:32-39 | The assertions of dealloc hold when a reaped task is dropped; its identifier is recycled and only it goes |
| `Pipes.PipeRingBuffer.WriteByte` | os/src/fs/pipe.rs:72-81 | Appends the byte to the contents |
| `Pipes.PipeRingBuffer.ReadByte` | os/src/fs/pipe.rs:82-90 | Takes the oldest byte |
| `Pipes.PipeRingBuffer.AvailableRead` | os/src/fs/pipe.rs:92-102 | The number of bytes in the ring |
| `Pipes.PipeRingBuffer.AvailableWrite` | os/src/fs/pipe.rs:103-109 | Together with what can be read always 32 |
| `PipeProtocol.AdvanceTakesOne` | os/src/mm/page_table.rs:332-348 | The iterator visits the bytes of all slices in order, each once |
| `PipeProtocol.FlattenIs` | os/src/mm/page_table.rs:300-330 | The bytes of a buffer are those of its slices, one after the other |
| `PipeProtocol.ReadsArePrefix` | os/src/fs/pipe.rs:137-192 | Bytes read are a prefix of bytes written, the difference is in the ring |
| `PipeProtocol.Finished` | os/src/fs/pipe.rs:137-192 | A finished write has put in its whole buffer; a short read means an empty ring and no write end, and that everything written was read |
| `PipeProtocol.SharedPipe.WriteRound` | os/src/fs/pipe.rs:169-192 | What one round moves, and exactly when the call returns |
| `PipeProtocol.SharedPipe.ReadRound` | os/src/fs/pipe.rs:137-168 | What one round moves, and exactly when the call returns |
| `PipeProtocol.SharedPipe.Run` | os/src/fs/pipe.rs:137-192 | Every schedule of calls, rounds and closing ends is carried out move by move, each doing what its round does, and in every state on the way reads are a prefix of writes |
| `ExecArgs.NoOverlap` | os/src/task/task.rs:200-221 | Strings lie below the pointer array and do not overlap |
| `ExecArgs.LayoutIs` | os/src/task/task.rs:200-221 | Array and strings in numbers: from the top of the page down, each string below the one before |
| `ExecArgs.WordBytes` | os/src/task/task.rs:200-221 | The bytes of a pointer in memory, lowest first |
| `ExecArgs.LaidNext` | os/src/task/task.rs:212-221 | Pushing an argument disturbs nothing that is in place |
| `ExecArgs.Exec` | os/src/task/task.rs:198-248 | Pointers, null pointer and strings are in place; the stack pointer is the highest multiple of 8 that is not above any of them |
| `ExecArgs.Start` | user/src/lib.rs:44-61 | The program sees every argument up to its first NUL |
| `ExecArgs.UpToNulIs` | user/src/lib.rs:44-61 | What the program sees of an argument is its longest prefix without NUL |
| `ExecArgs.ExecThenStart` | os/src/task/task.rs:198-248 | The arguments are recovered exactly if and only if none contains a NUL |

## Left out

- Volumes.Lifetime: the file system is opened again over the same cache; a device that was written back in part is not opened.
- BlockCaching.BlockCacheManager.Acquire: handles are named by block id, so two handles on the same buffer and their aliasing are not modelled; asking twice for the same block is excluded.
- Vfs.FileSystem.WriteInode: excludes the empty buffer, for which the source looks up a block that may not exist (easy-fs/src/layout.rs:414-424).
- DiskInodes.DiskInode.WriteAt: excludes the same empty writes, also the one at the end of the file.
- Vfs.FileSystem.OpenInode: the inode is read out of its block, edited as an object and stored when the block is released, where the source edits it in the buffer; the block stays locked in between.
- Geometries.InoReadsBack: the type of an inode takes a whole word, where the source uses one byte of it.
- DirEntries.DirentReadsBack: names are byte sequences; that they are UTF-8 is not stated.
- Mmap.MapVirtualPages: machines of more than 49250 frames, on which the reserve of the guard is too small for the table nodes.
- Forks.FromExistedUser: on a page of the parent that is not mapped the model stops; the source unwraps None, or reads frame 0, which the kernel does not map.
- Spaces.PageAddedAdds: frames are 512 words rather than 4096 bytes.
- MemorySets.MemorySet.RemoveArea: requires the area to be fully mapped; otherwise the source asserts in `unmap` (os/src/mm/page_table.rs:150).
- The hardware's updates of the accessed and dirty bits of an entry.
- MemorySets.MemorySet.Push: without the copying of program contents (`copy_data`); ELF parsing is not modelled, areas are given.
- Frames.FrameMemory.Dealloc: frames below the managed range are excluded, although the source's check would let them pass.
- Kernels.Kernel.SysFork: whether memory is enough and the copy succeeds are inputs there; `Machines.Machine.SysFork` decides them.
- Kernels.Kernel.SysSpawn: whether the file is found and the copy succeeds are inputs.
- Kernels.Kernel.ExitCurrent: initproc does not exit.
- Processes.RunKeeps: initproc does not exit; a reaped block may be dropped at any later time, or never.
- Kernels.Kernel.WaitPid: only the non-blocking form; the blocking form repeats it with yields in between.
- PipeProtocol.SharedPipe.StartWrite: user buffers come split into nonempty slices; how `translated_byte_buffer` splits them is not modelled.
- ExecArgs.Exec: the arguments fit the page; the source has no check and would touch unmapped memory.
- Memory ordering, interrupts, traps, assembly, drivers, timers and the console.
- The stride scheduler (not in use), mailboxes, hard links, file descriptors, and what survives a power failure.
