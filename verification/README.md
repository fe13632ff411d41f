# A verified model of the OS_64 kernel core

OS_64 is a small x86_64 kernel. This project models the parts of it whose correctness is hard to see
from the code, and proves what they keep, over all inputs and over whole runs:

* **Paging** (`Bits`, `PhysMap`, `PageTables`, `AddressSpace`, `PagingRuns`, `PagingExamples`, `TreeCopy`, `CopyPages`): the
  first-fit frame bitmap, four-level tables in physical memory that are reached only through one window
  slot, mapping, unmapping, range allocation, remapping, and the recursive fork of an address space.
* **Kernel heap** (`HeapModel`, `KernelHeap`): headers in memory that refine a list of chunks, with
  splitting, two-way joining and the 64-bit wrap at the top of memory.
* **ext2** (`Arith`, `BlockStack`, `Ext2Blocks`, `Ext2Files`, `Ext2Read`, `Ext2`, `Ext2Dir`, `Layouts`,
  `Ext2Old`): sector reads, partitions, block chains, direct, single-indirect and double-indirect files,
  directories, the layouts of the records on disk, and the older reader with its open files and cache.
* **Tasks** (`ContextSwitch`, `Scheduler`): a stack machine for the timer interrupt and the ring of tasks,
  on one processor.
* **Smaller cores** (`ElfLoader`, `Console`, `Spinlock`): segment placement over the page tables, the
  scrolling screen, and the exchange lock under every interleaving.

`dafny verify dfyconfig.toml` checks the project.

State that the kernel changes in place is a class (`Bitmap`, `Mmu`, `Heap`, `Processor`, `Reader`, `Loader`,
`Screen`); what a class promises is stated through functions on values, and the lemmas are about those.

## What is proved, in short

* Any run of mounts, unmounts and allocations is a run over a plain map from pages to descriptors
  (`PagingRuns.Run`). Tables never move, no frame is a table twice or both a table and free, no frame is
  handed out twice, and the number of frames used is exactly the missing tables and the new pages.
* A fork shares the kernel page table, and nothing else as long as no other page table maps that table's
  frame in its slot 0. Every other page has a frame of its own with the same contents and the same five
  flags, so has every link, and user mode reaches the same pages; the frames used are exactly those allocated; the
  source is unchanged (`CopyPages.CopyPage`, `CopyPages.CopyAddressSpace`).
* After any run of `kmalloc` and `kfree` the chunks tile the heap, no two free ones are adjacent, and the
  live blocks are exactly those the callers hold; once all are released, in any order, the heap is the one
  chunk of the start (`HeapModel.RunKeeps`, `HeapModel.RunRestores`).
* What a file read delivers is given as a function of the volume, of the heap behind the device's buffers and
  of what the allocated buffer held, through a partition and whole-sector transfers
  (`Ext2Read.ReadInodeData`); it is the bytes of the file, for every volume, heap and buffer, if and only if the
  request meets `Ext2Files.FileRequest` (`Ext2Files.FileReadIsRight`).
* Over any run of timer interrupts, forks and process starts each task gets back exactly what it last left
  with or had prepared for it, and any `n` turns in a row over `n` tasks are one of each
  (`Scheduler.Processor.Run`, `Scheduler.RoundRobin`, `Scheduler.TurnsAreFair`).

## Where the code does less than it seems to promise

* `kmalloc` never gives its out-of-memory answer: the walk wraps to address 0 and faults (mm/mem.c:42-52).
  `KernelHeap.Heap.Kmalloc` says when; `KernelHeap.RunsOut` gets there in two calls.
* `ata_read` returns the bytes of the disk, whatever lies behind its buffer, if and only if the request
  fits the rounded transfer (fs/ata/ata.c:60-68): `BlockStack.FetchedIsDisk`.
* A chain read is right for every volume and heap if and only if the request starts on a block border, or
  stays inside one block and fits the rounded transfer there (fs/ext2/ext2.c:168, fs/ata/ata.c:60-68):
  `Ext2Blocks.ChainReadIsRight`, with a volume and a heap for every other request in
  `Ext2Blocks.ChainReadGoesWrong`.
* A file read is right if and only if it stays within reach and that holds of what it reads of its first part:
  the direct blocks, the single-indirect ones, or those below one entry of the double-indirect block
  (`Ext2Files.FileReadIsRight`, `Ext2Files.FileReadGoesWrong`). A request that crosses from one part into the
  next is split there, so it may be right although it crosses a block border.
* The double-indirect span is held in an `int` and is 0 for blocks above 2048 bytes (fs/ext2/ext2.c:196):
  `Ext2Files.DoubleSpanFits`. What lies past `Ext2Files.Reach` is left as the heap had it
  (`Ext2Files.PastReach`).
* `ext2_finddir` compares only the length of the listed name. It finds a listed name if and only if no
  earlier entry is a proper prefix of it (fs/ext2/ext2.c:494): `Ext2Dir.LookupIsExact`,
  `Ext2Dir.LookupGoesWrong`.
* `copy_page` also shares, and does not copy, a page table other than the kernel's whose slot 0 maps the kernel
  page table's frame (mm/page.c:318-320): `TreeCopy.SharedIsKernelTable`.
* A user page is in reach of user mode if and only if the tables that were on its way before are open to it,
  because `mount_page_do` sets the user bit only on tables it creates (mm/page.c:162-192):
  `PageTables.UserReach`, and `PagingExamples.HiddenUserPage` for one that is not.
* The window page itself cannot be mapped, and remapping an unmapped page maps frame 0
  (`AddressSpace.Mounted`, `AddressSpace.Taken`).
* In the older reader only the first descriptor starts out closed, because the initialiser of the table
  names one element (fs/ext2_old/ext2.c:16-17): `Ext2Old.Reader.constructor`.
* `rest_regs` writes to the word below the record, which is the task's pid, and to two slots of the record
  (x86_64/regs.S:19-31): `ContextSwitch.Leave`.

## Model

| member | source | states |
|---|---|---|
| `Bits.SetBitIsOr` | mm/phys.c:69-76 | Setting bit `j` changes that bit and no other, as the bitwise or does |
| `Bits.OrTestReadsBit` | mm/phys.c:69 | The scan's test `(w OR (1 << j)) == w` holds exactly when bit `j` is set |
| `Bits.AllOnes` | mm/phys.c:43-44 | A word of `n` bits is all ones exactly when each of its bits is set |
| `PhysMap.FullWord` | mm/phys.c:43-44 | One 64-bit comparison decides both 32-bit halves: the word is all ones exactly when its 64 pages are taken |
| `PhysMap.MarkOne` | mm/phys.c:76 | Marking a page removes it, and only it, from the free pages |
| `PhysMap.FirstClearBit` | mm/phys.c:69-71 | The inner scan finds the lowest clear bit of a half, or 32 |
| `PhysMap.FindClear` | mm/phys.c:43-74 | The two-level scan stops at the lowest clear page from one megabyte on, or finds that there is none |
| `PhysMap.LowestFree` | mm/phys.c:43-83 | The page found is free and no free page is below it |
| `PhysMap.Bitmap.AllocPhysPage` | mm/phys.c:39-84 | Returns the address of the lowest free page and takes exactly it; 0 exactly when none is free |
| `PageTables.RawIsInjective` | mm/page.h:7-22 | The bit fields of a descriptor and its 64-bit number determine each other |
| `PageTables.SplitIsPageNo` | mm/page.h:24-32 | Two addresses have the same four table indices exactly when they lie in the same page of the 48-bit space |
| `PageTables.WindowAddress` | mm/page.c:13 | The window address has the indices 511, 511, 0, 0: slot 0 of the kernel page table |
| `PageTables.SameTables` | mm/page.c:271-278 | Memory that agrees on every table has the same tree and the same translations |
| `PageTables.StoreLeaf` | mm/page.c:196-197 | Storing into a page table changes one translation and no table |
| `PageTables.LinkTable` | mm/page.c:162-168 | Hanging a zeroed frame under a missing entry adds exactly that table, keeps a proper tree and changes no translation |
| `PageTables.LinkOpens` | mm/page.c:162-168 | Hanging a table changes no other link |
| `PageTables.UserReach` | mm/page.c:162-192 | A user page is reached by user mode if and only if the tables that were on its way before hang on user links |
| `PageTables.WalkIsHardware` | mm/page.h:24-32 | The walk goes through the four tables by bits 47-39, 38-30, 29-21 and 20-12 of the address, every link present, down to the descriptor |
| `AddressSpace.CreateTableSound` | mm/page.c:162-168 | Creating a missing table keeps the invariant of memory and bitmap, and extends the tree by one node |
| `AddressSpace.StoreLeafSound` | mm/page.c:195-199 | Storing a leaf keeps the invariant and changes one translation |
| `AddressSpace.DataStays` | mm/page.c:149-200 | A frame that is neither table nor free never becomes a table and keeps its contents |
| `AddressSpace.RangeIsDistinct` | mm/page.c:373-376 | The pages of a range below the size of the address space are pairwise distinct |
| `AddressSpace.RangeIsTouched` | mm/page.c:373-376 | The pages of a page-aligned range are exactly those its bytes lie in, so no page more than needed is taken |
| `AddressSpace.CostOfTables` | mm/page.c:373-376 | What one round takes for tables is exactly what the rest of the range no longer needs |
| `AddressSpace.BackedNext` | mm/page.c:375 | One more page of the range backed keeps all that holds of the ones before |
| `AddressSpace.MovedNext` | mm/page.c:361-362 | One more page moved keeps all that holds of the ones before |
| `AddressSpace.Mmu.MountT` | mm/page.c:130-139 | Only the translation of the window changes; tables, free frames and other pages stay |
| `AddressSpace.Mmu.UmountT` | mm/page.c:141-147 | The window is closed; nothing else changes |
| `AddressSpace.Mmu.CreatePage` | mm/page.c:18-43 | The lowest free frame leaves the free frames |
| `AddressSpace.Mmu.CreateTable` | mm/page.c:162-168 | A missing table appears in a frame that was free, on a link with the given user bit; no other link and no translation changes |
| `AddressSpace.Mmu.Descend` | mm/page.c:156-169 | One level: the table below exists afterwards, created only if it was missing, all through the window |
| `AddressSpace.Mmu.OpenPath` | mm/page.c:156-193 | For any mix of missing levels the page table of the page exists afterwards; exactly the missing tables were added |
| `AddressSpace.Mmu.MountAt` | mm/page.c:149-200 | The page translates to the descriptor, every other page as before; a proper tree is kept; exactly the missing tables are taken from the free frames; new links carry the user bit of the page and old ones stay |
| `AddressSpace.Mmu.MountPageDo` | mm/page.c:149-200 | The same for a linear address |
| `AddressSpace.Mmu.FindPageTable` | mm/page.c:220-248 | The level-by-level search finds the page table of the walk, or that a level is missing |
| `AddressSpace.Mmu.UmountAt` | mm/page.c:212-260 | Returns the descriptor of the walk, null if a level is missing; afterwards the page is not present, its other fields are as before, and so is every other page |
| `AddressSpace.Mmu.AllocPages` | mm/page.c:370-386 | Every page of the range is present and writable, user if asked for, with all other bits clear, on a frame of its own, zeroed, free before and no table; every other page as before; the exact number of frames used, also as seen by pages mapped later; the links as for one page |
| `AddressSpace.Mmu.RemapPages` | mm/page.c:354-364 | The frame behind each old page is behind the new one, present and writable; no old page is present; other pages undisturbed, although a raw descriptor with flags is passed on |
| `PagingExamples.BootIsSound` | mm/page.c:396-440 | The invariant holds of a memory image like the one the kernel starts with |
| `PagingExamples.HiddenUserPage` | mm/page.c:162-200 | A user page under a kernel table has its user bit and is not reached |
| `PagingRuns.LastMapWins` | mm/page.c:149-260 | A page shows the last descriptor mapped at it if nothing later names it |
| `PagingRuns.UnmapStays` | mm/page.c:250-256 | A page unmapped and not named since has its present bit clear and is otherwise as before the unmount |
| `PagingRuns.UnnamedStays` | mm/page.c:149-260 | A page that is never named shows what it showed at the start |
| `PagingRuns.LastCallShows` | mm/page.c:149-260 | What a run leaves in memory at a page: not present if the last call that names it is an unmount, the descriptor of a mount, a present and writable one of the frame given by an allocation, with its user bit |
| `PagingRuns.ImplementsNext` | mm/page.c:149-260 | One more operation keeps the agreement with the plain map |
| `PagingRuns.OwnedNext` | mm/page.c:18-43 | A frame handed out before is never handed out again and never becomes a table |
| `PagingRuns.Run` | mm/page.c:149-260 | Every run of mounts, unmounts, page allocations and bare frame allocations: all pages translate as in the plain map, no table moves or is aliased, no frame is handed out twice, and the exact number of frames used |
| `TreeCopy.SharedIsKernelTable` | mm/page.c:318-320 | The early return fires for the kernel page table, and for a page table other than it exactly when its slot 0 maps the kernel page table's frame |
| `TreeCopy.Stable` | mm/page.c:330-331 | Writes to free frames affect neither a tree outside them nor what its copy needs |
| `TreeCopy.CopiedFromSame` | mm/page.c:323-324 | A copy of a tree is a copy of it in any memory that agrees on the tree |
| `TreeCopy.CopiedToSame` | mm/page.c:330-331 | A finished copy survives later writes to free frames |
| `CopyPages.MaskedKernelPt` | mm/page.c:319 | The masked address test names exactly the kernel page table's frame |
| `CopyPages.ReadPage` | mm/page.c:262-269 | Gives the frame as seen through the window: the kernel page table's slot 0 names itself while it is read |
| `CopyPages.WritePage` | mm/page.c:271-278 | Writes exactly that frame; tables, translations and free frames stay |
| `CopyPages.ProgressCopy` | mm/page.c:322-325 | The copy of a child takes the loop one entry further, with exactly the frames allocated so far |
| `CopyPages.TableCopied` | mm/page.c:330-333 | The finished buffer in a new frame is a copy of the table and of all below it |
| `CopyPages.CopyEntries` | mm/page.c:301-327 | After the loop every entry is kept or names a copy of its child |
| `CopyPages.CopyPage` | mm/page.c:290-334 | The result is a copy that shares only the kernel page table; its frames are exactly those allocated, each used once; the rest of memory is unchanged |
| `CopyPages.ForkedTranslation` | mm/page.c:336-349 | Every page of the copy translates to a frame of its own with the same contents and low five flags, or to the shared kernel page |
| `CopyPages.ForkKeepsPage` | mm/page.c:323-325 | A page outside the kernel page table has in the copy the same present, writable, user and cache bits, all other bits clear, and a frame of its own with the same contents |
| `CopyPages.ForkKeepsLinks` | mm/page.c:323-325 | So do the links to the tables, at all three levels |
| `CopyPages.ForkAddsNoTable` | mm/page.c:310-327 | The copy has exactly the tables of the source |
| `CopyPages.ForkKeepsReach` | mm/page.c:323-325 | User mode reaches exactly the same pages in the copy |
| `CopyPages.CopyAddressSpace` | mm/page.c:342-349 | The whole address space is forked: field by field, every page not shared and every link keeps its rights, the same pages are reached by user mode, every page has a frame of its own with the same contents, and the source is untouched |
| `HeapModel.LiveDisjoint` | mm/mem.c:56-74 | Live blocks never overlap and have a header between them |
| `HeapModel.LiveInside` | mm/mem.c:26-29 | Live blocks lie inside the heap |
| `HeapModel.AllocKeeps` | mm/mem.c:56-74 | An allocation keeps the tiling, adds one block of at least the size asked for, and moves none |
| `HeapModel.FreeKeeps` | mm/mem.c:92-121 | A release keeps the tiling and removes exactly that block |
| `HeapModel.FreeUndoesAlloc` | mm/mem.c:56-121 | Releasing what was just allocated restores the exact chunk list |
| `HeapModel.AllFree` | mm/mem.c:25-31 | A coalesced heap without live blocks is one free chunk |
| `HeapModel.RunKeeps` | mm/mem.c:35-128 | Every run keeps the tiling and coalescing, and the live blocks are exactly those held |
| `HeapModel.RunRestores` | mm/mem.c:35-128 | Once everything is released, in any order, the heap is as `mem_init` made it |
| `KernelHeap.LowestBlock` | mm/mem.c:41-44 | No free chunk of at least the size asked for lies below the first fitting one |
| `KernelHeap.AllocHasEffect` | mm/mem.c:55-74 | The chunk taken was free and large enough; more than a header beyond the size asked for is cut off as a free chunk, otherwise the whole chunk is given |
| `KernelHeap.FreeHasEffect` | mm/mem.c:92-115 | The chunk becomes one free chunk with its free neighbours and their headers; the others stay |
| `KernelHeap.NextHeader` | mm/mem.c:105-107 | The next header as a 64-bit sum: 0 after the last chunk, otherwise a header below the limit |
| `KernelHeap.AbsorbMerges` | mm/mem.c:97-100 | The writes of a join turn the headers of two chunks into those of the joined one |
| `KernelHeap.SplitHolds` | mm/mem.c:58-71 | The writes of a split give the headers of the split list, back links included |
| `KernelHeap.FreeAtIsMerges` | mm/mem.c:93-115 | Marking and at most two joins are the release of the model |
| `KernelHeap.Heap.constructor` | mm/mem.c:25-31 | One free chunk up to the top of memory |
| `KernelHeap.Heap.Find` | mm/mem.c:41-52 | The walk ends on the first chunk that is free and has at least the size, or at the wrapped address 0 exactly when there is none |
| `KernelHeap.Heap.Kmalloc` | mm/mem.c:35-75 | Null exactly for sizes out of range, a fault exactly when nothing fits; otherwise a block at or below that of every free chunk of at least the size, cut exactly when a header and a byte are left over |
| `KernelHeap.Heap.Take` | mm/mem.c:55-74 | Splits exactly if the rest can hold a header and a byte; headers stay right |
| `KernelHeap.Heap.JoinPrevious` | mm/mem.c:94-103 | A free chunk before absorbs the released one |
| `KernelHeap.Heap.JoinNext` | mm/mem.c:105-115 | A free chunk after is absorbed |
| `KernelHeap.Heap.LinkBack` | mm/mem.c:117-121 | The following chunk is linked back |
| `KernelHeap.Heap.Kfree` | mm/mem.c:77-128 | Null is ignored; a live block becomes one free chunk with its free neighbours; the headers stay right |
| `KernelHeap.RunsOut` | mm/mem.c:42-52 | Two calls after which the walk faults instead of giving its out-of-memory answer |
| `BlockStack.FetchedIsDisk` | fs/ata/ata.c:60-68 | What is copied out is the disk's bytes for every heap exactly when offset and length fit the rounded transfer |
| `BlockStack.FetchedIsCopied` | fs/ata/ata.c:60-68 | The transferred sectors with the heap behind them, from `offset & 511` on, hold byte by byte what the model says |
| `BlockStack.AtaRead` | fs/ata/ata.c:48-81 | As many bytes as asked for, or up to the end of the disk; rounding to sectors and copy-out, for every heap; nothing else of the buffer is written |
| `BlockStack.TransferFits` | fs/ata/ata.c:60-66 | A transfer does not pass a sector border that the request stays below, so a partition may end with its disk |
| `BlockStack.InsideDevice` | fs/mdpart/mdpart.c:79-113 | A request inside a sector-aligned partition is as safe on the device, means the same bytes, and its transfer is on the disk |
| `BlockStack.GotIsPartition` | fs/mdpart/mdpart.c:102-116 | A read inside the partition gives its bytes for every heap if and only if it fits the rounded transfer |
| `BlockStack.GotToTheEnd` | fs/mdpart/mdpart.c:110-115 | A read that passes the end of the partition gives the bytes up to the end, for every heap if and only if those fit the rounded transfer |
| `BlockStack.MdpartRead` | fs/mdpart/mdpart.c:102-116 | As many bytes as asked for, or up to the end of the partition, moved to its start and read by the device; nothing else of the buffer is written |
| `Ext2Blocks.BlockIsAligned` | fs/ext2/ext2.c:141-151 | A read at an offset in a block is as safe as the offset alone; whole-block reads are safe |
| `Ext2Blocks.Product32Is` | fs/ext2/ext2.c:146 | The place of a block is the 32-bit product, wrapped |
| `Ext2Blocks.BlockGot` | fs/ext2/ext2.c:141-151 | A safe part of a block in the volume is read exactly, the 32-bit product for its address included |
| `Ext2Blocks.ReadBlockData` | fs/ext2/ext2.c:141-151 | What of a block is read, for every heap |
| `Ext2Blocks.ReadBlockChain` | fs/ext2/ext2.c:153-183 | The buffer is what `AfterChain` says: pieces of a block's length, the first from the offset on, up to a zero pointer |
| `Ext2Blocks.ChainFrame` | fs/ext2/ext2.c:163-180 | A chain read writes nothing outside the request's part of the buffer |
| `Ext2Blocks.ChainRight` | fs/ext2/ext2.c:163-180 | A request on a block border, or a right piece of one block, delivers the bytes of the file if its blocks are there |
| `Ext2Blocks.ReadsRight` | fs/ext2/ext2.c:153-183 | A good request delivers the bytes of the file, whatever the heap holds |
| `Ext2Blocks.UniformGoesWrong` | fs/ext2/ext2.c:168 | For any other request the first piece has a wrong byte: the heap's, or one from after the block |
| `Ext2Blocks.ChainReadGoesWrong` | fs/ext2/ext2.c:168 | A volume, a heap and a buffer for which such a request does not deliver the file |
| `Ext2Blocks.ChainReadIsRight` | fs/ext2/ext2.c:153-183 | A chain read is right for every volume, heap and buffer if and only if the request is good |
| `Ext2Files.SecondLevelAt` | fs/ext2/ext2.c:228-251 | Which pointer of which pointer block names a double-indirect block of the file |
| `Ext2Files.SingleBlockIs` | fs/ext2/ext2.c:211-218 | Block `12 + i` of a file is the little-endian word `i` of the single-indirect block |
| `Ext2Files.DoubleBlockIs` | fs/ext2/ext2.c:228-245 | A later block is a word of the block that a word of the double-indirect block names |
| `Ext2Files.FileByteIs` | fs/ext2/ext2.c:163-178 | Byte `pos` of a file is byte `pos % b` of block number `pos / b` of the file |
| `Ext2Files.ReachIs` | fs/ext2/ext2.c:190-197 | The reach in bytes, for every block size |
| `Ext2Files.FileRight` | fs/ext2/ext2.c:199-257 | Part by part, a request the code can serve delivers the bytes of the file |
| `Ext2Files.DoubleSpanFits` | fs/ext2/ext2.c:193-197 | Which block sizes keep the double-indirect span in an `int`, and that it is 0 otherwise |
| `Ext2Files.PartInReach` | fs/ext2/ext2.c:193-257 | The reach ends with a part and inside what the inode names |
| `Ext2Files.PastReach` | fs/ext2/ext2.c:190-267 | What lies past the reach is left as the buffer had it |
| `Ext2Files.FileReadGoesWrong` | fs/ext2/ext2.c:185-267 | A volume, a heap and a buffer for which any other request goes wrong |
| `Ext2Files.FileReadIsRight` | fs/ext2/ext2.c:185-267 | A file read is right for every volume without missing blocks, every heap and every buffer if and only if it is within reach and good in its first part |
| `Ext2Read.ReadPointers` | fs/ext2/ext2.c:214-215 | A pointer block in the volume is read as its pointers |
| `Ext2Read.ChainOfPart` | fs/ext2/ext2.c:203-245 | A pointer block's chain is read like the part of the file it is |
| `Ext2Read.SinglePart` | fs/ext2/ext2.c:211-218 | With a block of the region there, the single-indirect pointers are blocks 12 and on of the file |
| `Ext2Read.DoublePart` | fs/ext2/ext2.c:233-245 | The same for the pointers below an entry of the double-indirect block |
| `Ext2Read.FindPart` | fs/ext2/ext2.c:235-237 | The search leaves the right second-level block, one earlier with a full rest at an exact multiple |
| `Ext2Read.ReadDirect` | fs/ext2/ext2.c:199-209 | The direct part of a request |
| `Ext2Read.ReadSingle` | fs/ext2/ext2.c:211-226 | The single-indirect part |
| `Ext2Read.ReadDouble` | fs/ext2/ext2.c:228-257 | The double-indirect part, including the zero-length step at an exact multiple of the span |
| `Ext2Read.ReadInodeData` | fs/ext2/ext2.c:185-267 | Past the reach nothing is changed; with the blocks within reach there, exactly what `FileGot` says; for a request the code can serve, the bytes of the file |
| `Ext2.DescriptorSafe` | fs/ext2/ext2.c:92-97 | Reads of group descriptors never straddle a sector |
| `Ext2.InodeSafe` | fs/ext2/ext2.c:104-109 | Nor do inodes of 128, 256 or 512 bytes |
| `Ext2.Init` | fs/ext2/ext2.c:36-69 | The superblock of the volume, if it has the magic number |
| `Ext2.ReadInode` | fs/ext2/ext2.c:81-114 | The inode the volume has under that number |
| `Ext2.ReadAnyInode` | fs/ext2/ext2.c:81-114 | The same for a number from the disk, 0 included |
| `Ext2.Read` | fs/ext2/ext2.c:337-358 | Offsets past the end are refused; others give as many bytes as asked for, or up to the end of the file, as the file read delivers them; the rest of the buffer stays |
| `Ext2Dir.EntriesOfPrefix` | fs/ext2/ext2.c:446-451 | The listing depends on the first `size` bytes only, not on what follows them in the buffer |
| `Ext2Dir.ReadDirData` | fs/ext2/ext2.c:436-465 | The walk ends and gives entry `index` of the listing, or none when there are fewer |
| `Ext2Dir.SameStart` | fs/ext2/ext2.c:494 | When the comparison of a name with a listed one succeeds, NULs included |
| `Ext2Dir.FoundIsFirst` | fs/ext2/ext2.c:488-499 | The entry found is the first that matches, and none is found only when none matches |
| `Ext2Dir.FindDirData` | fs/ext2/ext2.c:481-499 | The walk ends on the first entry that matches, or there is none |
| `Ext2Dir.LookupIsExact` | fs/ext2/ext2.c:488-499 | A listed name is found if and only if no earlier entry's name is a proper prefix of it |
| `Ext2Dir.LookupGoesWrong` | fs/ext2/ext2.c:494 | A directory in which the lookup gives another file |
| `Ext2Dir.ReadDirectBlocks` | fs/ext2/ext2.c:116-139 | The bytes of the file up to any size below which no block is missing |
| `Ext2Dir.ReadDir` | fs/ext2/ext2.c:431-471 | For good directories on the volume, exactly the entries in order |
| `Ext2Dir.FindDir` | fs/ext2/ext2.c:473-527 | For good directories on the volume, the first listed entry that matches, with the attributes of the inode it names |
| `Ext2Dir.NulEndsName` | fs/ext2/ext2.c:494 | What follows a NUL in a listed name is not compared; a name without NUL matches exactly beginnings of the name sought |
| `Layouts.SuperRoundTrip` | fs/ext2/ext2.h:19-73 | A superblock written field by field, low byte first, is read back if and only if it has the magic number |
| `Layouts.BlockSizes` | fs/ext2/ext2.h:31 | The block size is 1024 shifted by the field of the superblock |
| `Layouts.InodeRoundTrip` | fs/ext2/ext2.h:86-123 | An inode written field by field is read back |
| `Layouts.InodeOnDisk` | fs/ext2/ext2.c:87-109 | An inode stored in the table that the descriptor of its group names is the inode of the volume with the number `per * g + id + 1` |
| `Layouts.RecordRoundTrip` | fs/ext2/ext2.h:125-136 | A directory record written field by field is read back as its entry |
| `Layouts.DirectoryRoundTrip` | fs/ext2/ext2.c:446-465 | A directory written record by record lists exactly the entries, in order, up to its size or an empty name |
| `Ext2Old.ReadLoop` | fs/ext2_old/ext2.c:206-226 | From any position, aligned or not, the loop delivers the slice of the file up to twelve blocks |
| `Ext2Old.ReadFrom` | fs/ext2_old/ext2.c:190-230 | The slice given is the one asked for, clipped to the size and to twelve blocks |
| `Ext2Old.GivenIs` | fs/ext2_old/ext2.c:190-204 | A read gives all that was asked for, or ends at the low 32 bits of the size or after twelve blocks |
| `Ext2Old.PlaceOfInode` | fs/ext2_old/ext2.c:78-84 | With the descriptor's table place the inode is the volume's |
| `Ext2Old.FillCache` | fs/ext2_old/ext2.c:70-82 | The cache agrees with the group descriptors on the disk |
| `Ext2Old.GivenAdds` | fs/ext2_old/ext2.c:190-204 | Two reads in a row give as many bytes as one |
| `Ext2Old.ServedNext` | fs/ext2_old/ext2.c:172-231 | Slices served in a row are one slice |
| `Ext2Old.Reader.constructor` | fs/ext2_old/ext2.c:10-17 | The initial tables; only descriptor 0 is closed |
| `Ext2Old.Reader.ReadInode` | fs/ext2_old/ext2.c:66-90 | Cached or not, the inode of the volume; the cache stays right |
| `Ext2Old.Reader.Read` | fs/ext2_old/ext2.c:172-231 | Every answer, the slice delivered, the new position, and that no other descriptor changes |
| `Ext2Old.Reader.Lseek` | fs/ext2_old/ext2.c:255-292 | The new position is the 32-bit value of the target if that is not past the end of the file; otherwise nothing changes |
| `Ext2Old.Reader.ReadMany` | fs/ext2_old/ext2.c:172-231 | Any reads on any open descriptors in any order: each descriptor gets consecutive slices whose concatenation is what one read would give |
| `ContextSwitch.SaveRegs` | x86_64/regs.S:6-17 | Nine registers in the order of `comm_regs`; the return address passes through `rax` |
| `ContextSwitch.RestRegs` | x86_64/regs.S:20-31 | The nine registers of the record, although two words are overwritten on the way |
| `ContextSwitch.Enter` | x86_64/timer.S:64-69 | The stack holds the interrupted context in the layout of `all_regs` |
| `ContextSwitch.Leave` | x86_64/timer.S:72-79 | The task resumes with exactly the recorded context; which three words are written |
| `ContextSwitch.AllRegsLayout` | x86_64/regs.h:8-41 | The fifteen words of a record in the order of the structures |
| `Scheduler.RotatedRing` | kernel/task.c:240-243 | The cycle may be entered at any task |
| `Scheduler.InsertedRing` | kernel/task.c:219-220 | The two assignments keep `next` a single cycle over all tasks and the new one |
| `Scheduler.FirstActive` | kernel/task.c:240-243 | The search ends, at the latest on its start, on the first active task in ring order |
| `Scheduler.CopyRecord` | kernel/task.c:238 | The fifteen words of a record are copied and nothing else is written |
| `Scheduler.SwitchKeeps` | kernel/task.c:238-243 | A switch keeps every task but the current one active with its context in its record |
| `Scheduler.TaskSwitch` | kernel/task.c:226-249 | A starting task keeps the processor, now running, with its prepared record and the cr3 of the moment; any other is left active with its registers saved, and the record of the task it is linked to is chosen |
| `Scheduler.TimerStep` | x86_64/timer.S:64-79 | The whole interrupt, whatever the C code leaves on its stack |
| `Scheduler.Processor.constructor` | kernel/task.c:71-87 | One running task linked to itself |
| `Scheduler.Processor.Insert` | kernel/task.c:203-224 | A new task enters the ring after the current one with its prepared record |
| `Scheduler.Processor.Prepare` | elf/start.c:90-98 | The current task prepares its own record and is starting |
| `Scheduler.Processor.TimerIntr` | x86_64/timer.S:64-79 | The ring turns, the interrupted context is saved, and the next task gets exactly its saved or prepared one |
| `Scheduler.TurnsAreFair` | kernel/task.c:240-243 | Any `n` turns in a row over `n` tasks are one of each |
| `Scheduler.TurnedNext` | kernel/task.c:226-249 | One more turn keeps what every task is owed |
| `Scheduler.SavedIsLast` | kernel/task.c:203-249 | In any run of ticks, forks and starts the saved record of a task is what looking back in the run finds |
| `Scheduler.ResumedIsDue` | kernel/task.c:226-249 | So a tick resumes a task with what it last left with or had prepared, a starting one with its current cr3 |
| `Scheduler.RoundRobin` | kernel/task.c:240-243 | In a stretch of ticks turns go round the ring and each task gets back what it left with one round earlier |
| `Scheduler.Processor.ForkTask` | kernel/task.c:203-224 | The record is prepared and the new task enters the ring after the current one |
| `Scheduler.Processor.StartOver` | elf/start.c:90-98 | The current task gets a prepared record and is starting |
| `Scheduler.Processor.Run` | kernel/task.c:203-249 | Every run of timer interrupts, forks and process starts: the ring stays in step, and at every tick the task that runs next gets exactly its due |
| `ElfLoader.BackedOneToOne` | elf/elf.c:345 | The pages allocated for a segment are user pages and hold its bytes one to one |
| `ElfLoader.SharedPageIsLost` | elf/elf.c:345 | A page allocated twice leads to another frame, so segments must not share pages |
| `ElfLoader.PagesAreTouched` | elf/elf.c:345 | The pages mapped for a segment are exactly those its bytes lie in |
| `ElfLoader.PageCount` | elf/elf.c:345 | How many they are, for empty segments too |
| `ElfLoader.AllPagesCount` | elf/elf.c:314-357 | The pages of all segments, counted by first and last byte |
| `ElfLoader.UntouchedStay` | elf/elf.c:314-357 | A page in which no byte of a segment lies translates as before |
| `ElfLoader.LoadedIsImage` | elf/elf.c:347-352 | Each byte address of a segment, read through the tables, holds its file byte or zero, on a writable user page |
| `ElfLoader.LoadedStays` | elf/elf.c:321-354 | A segment on other pages survives the loading of the next |
| `ElfLoader.FillSegment` | elf/elf.c:347-352 | Zeros all over the segment, then its file bytes; nothing else is written |
| `ElfLoader.FirstCost` | elf/elf.c:345 | A segment can be paid for out of what all segments need |
| `ElfLoader.LoadedIsReached` | elf/elf.c:345 | User mode reaches a page of a segment if and only if the tables that were on its way before are open to it |
| `ElfLoader.Loader.LoadSegment` | elf/elf.c:328-353 | One segment mapped and filled, with the exact frames used |
| `ElfLoader.Loader.LoadStage3` | elf/elf.c:314-357 | Every byte address of every loadable segment holds its file byte or zero, on user pages; which of them user mode reaches; every page without a byte of a segment translates as before; exactly one frame for each page that a segment has a byte in and for each missing table |
| `Console.ShiftShows` | kernel/ktty.c:45-55 | Moving the picture up shows the history one line on |
| `Console.WriteShows` | kernel/ktty.c:64-68 | A character at the end of the unfinished line |
| `Console.Screen.OnScreen` | kernel/ktty.c:71 | The position stays on the screen |
| `Console.Screen.Clear` | kernel/ktty.c:33-40 | All 4000 bytes are blank, for an empty history |
| `Console.Screen.Shift` | kernel/ktty.c:45-55 | The overlapping byte-by-byte move is a shift by a line with a blank last line |
| `Console.Screen.Putc` | kernel/ktty.c:57-72 | The character and its attribute go to the position, scrolling if need be; the history grows by the character and the screen shows its last 25 lines |
| `Console.Screen.Puts` | kernel/ktty.c:74-81 | The same for every stream of characters |
| `Spinlock.StepKeeps` | x86_64/spinlock.S:17-33 | Each instruction of each processor keeps the invariant of the lock |
| `Spinlock.EntersAsOwner` | x86_64/spinlock.S:19-33 | A processor comes inside only as the owner, becomes the owner only by an exchange that takes the byte from 1 to 0, gives it up only by the store that puts 1 back, and leaves no other way |
| `Spinlock.RunIsGood` | x86_64/spinlock.S:11-33 | In every interleaving at most one processor is inside, and the byte is 1 exactly when none owns the lock |
| `Spinlock.ExchangeDecides` | x86_64/spinlock.S:22-25 | An exchange succeeds exactly when nobody owns the lock |
| `Spinlock.AcquiresAlone` | x86_64/spinlock.S:19-27 | If no other processor owns the lock, one that wants it gets it by itself within five instructions |

## Left out

- TLB contents, `invlpg`, cr3 loads, page faults (mm/pagefault.h) and the boot layout of `page_init` and
  `phys_init`: hardware and start-up; the model starts from any state that meets its invariant.
- Failure of a frame allocation: the code does not check for it, so paging operations ask for as many free
  frames as they need, and that unallocated frames read as zero, which the code needs (mm/page.c:18-29).
- PagingRuns.Run: `remap_pages` is an instance, an unmount and a mount of its result; `copy_pages` is not a call of a
  run, and its own contract says which frames it takes.
- `free_phys_page` (mm/phys.c:86-94): nothing calls it, and its shift is an `int`.
- The buffer of `copy_page` comes from the heap; here it is local. The early return (mm/page.c:320) leaks it.
- CopyPages.CopyPage: the kernel page table lies below 2^28 bytes, where the mask of mm/page.c:319 keeps it.
- Demand faulting under the heap, and freeing of physical memory behind it (mm/mem.c:124-127, empty).
- BlockStack.AtaRead: requests of at most 255 sectors inside the disk; the ports of ata_pio are not modelled.
- Triple-indirect blocks: not implemented (fs/ext2/ext2.c:259-263).
- Ext2Dir.ReadDir: malformed directories. A record of size zero with a name keeps `ext2_finddir` in place forever.
- Ext2Old.Reader.Read: an unmounted volume and a null buffer are left out; descriptor 1024, which passes the check
  `fd > 1024`, and more than 16 groups are excluded.
- Path lookup in `ext2_open` (fs/ext2_old/ext2.c:110-170) and ext2_close: the reads start from open descriptors.
- More than one processor in the scheduler: a resumed task stays TASK_ACTIVE (kernel/task.c:240-243), so
  nothing keeps two processors from taking it.
- Scheduler.Processor.TimerIntr: registers r10 to r15 are not saved (x86_64/regs.h:20-31) and pids do not survive a switch.
- Scheduler.Processor.Insert: `task_fork` does not write `state` (kernel/task.c:212-220); it is taken as
  TASK_ACTIVE. `copy_stack` and `read_rip` appear only as the prepared record.
- ElfLoader.Loader.LoadStage3: pages are mapped below the global root and written through it, so cr3 is taken to be
  that root. Bytes of pages are kept beside the table words, since no page of a segment is a table.
- ELF stage 1, relocation and symbols: stubs (elf/elf.c:137, 265).
- Syscalls, devfs, tty, fat32, APIC, PIT, keyboard, VESA, GDT and IDT packing: thin dispatch or device code.
- Starvation on the spinlock: with other processors competing, nothing bounds the wait.
