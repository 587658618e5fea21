# Kenux kernel: models and proofs

A Dafny model of the algorithmic cores of the Kenux kernel, written in C for x86_64, and proofs of
what they promise. Code that updates structures in place is modelled by classes, arrays and loops;
each loop is proved against a specification on values, and the promises are proved about that.

| files | what they model |
|---|---|
| RbShape, RbHeap, RbTree | the parent-pointer red-black tree |
| Pool, PageTree, PageMap, Bits | the page pool and the four-level page tables |
| Ext4Disk, ExtentTree, BlockMap, Ext4File, Bytes | ext4 extents, block map and file reads |
| MmapTable, MmapCut, Mmap | the virtual area table |
| JournalLog, Journal | recovery of the jbd2 journal |
| TimerList, TimerWheel | the timer wheel |
| ByteRing, StreamLog, Pipe, UnixStream, KFifo | the byte rings |
| DnsName, DnsDecode, DnsWalk, DnsMessage | DNS names, queries and responses |
| SortOrder, InsertSort, QuickSort, HeapSort | the sorts |
| Line | line drawing |
| Common | small things several modules use |

How to read them:

- The red-black tree lives in the heap. A ghost tree says what the pointers spell out, and a ghost
  context (the path above a node) says where a loop stands, so that each fixup case is one equation
  between trees.
- Page tables are a memory of 512-entry tables; a ghost flat map is what `GetPhysical` must agree with.
- Disks and devices are maps from block number to bytes. A block that is absent cannot be read.
- The journal superblock is kept beside the device, as the record recovery reads and rewrites.
- Timer lists are sequences, and a timer is known by a number and its expiry. Jiffies do not wrap:
  slots are picked by bits 0 to 31 of an expiry, so wrapping at 2^64 changes none.
- Spin locks make each lock region one step. `wait_queue_wait` gives up the lock and does not take it
  back, so one turn of the loop of a blocking call is one step; `Run` takes any order of steps. Bytes
  are tagged with the call that moved them, so that a run says which call got what.
- A comparison for sorting is any function for which `<= 0` is total and transitive.

What the code does differently from what its names or comments promise:

- `memory_alloc` with a size within about 4 GiB of 2^64 can pass the limit test and damage the pool
  (`AllocatedSound`, `OverrunFirst`). A size within 4095 of 2^64 rounds to zero and is answered with
  any dead block (`AllocatedGives`, `PageForAll`). Freeing a block twice subtracts its size twice (`FreedTwice`).
- `pmap_map_page` and `pmap_unmap_page` take a 2 MiB entry for one that names a page table: the call
  succeeds, writes into the 2 MiB page and leaves the translation as it was (`MapPage`, `HugeStays`).
- An extent of raw length 0x8000 counts as one block (`LengthExact`). The block map repeats from block
  2^32 + 12 on (`MapWraps`, `MapPastBound`). `ext4_read_file` does not clip when offset plus length
  wraps (`ClipExact`, `ClipMissed`).
- `munmap` of the middle of an area loses the tail when all 256 slots are taken (`UnmapExact`,
  `SplitFull`). A range that wraps
  around 2^64 is not refused and can leave overlapping areas (`UnmapApart`, `BackwardsOverlap`); an
  area can be mapped past 2^64 (`MapAnywhere`, `PastTheEnd`). Trimming the start of an area at file offset 0 leaves
  the offset as it was (`UnmapShows`, `StartTrimmed`). `mmap` gives up its lock between
  finding a range and entering it (`RegionIff`, `FoundTwice`).
- The packed jbd2 block header is 4100 bytes, more than a 4096-byte block (`NothingFits`, `ReplaysIff`). A target
  block of 2^61 or more wraps in the sector number (`SectorsWrap`). A transaction
  number of 2^64 - 1 makes the loop over transactions endless (`LoadEndsIff`, `OneRecordSpins`).
- The wheel only ever cascades level 1, and after the expired slot of the same tick: expiries that are
  multiples of 256 come 256 ticks late, delays of 65536 ticks or more never fire (`OneShotIff`,
  `LateAndNever`).
- `timer_add` reads jiffies before it takes the lock, and ticks in between come out of the delay
  (`OneShotIff`, `ReadEarly`).
- A pipe read of 2^63 bytes or more returns 0 at once (`HugeReadEnds`). One whose missing count is a
  multiple of 2^32 takes nothing (`TurnTakes`). Writes and sends are cut to the low 32 bits of their
  length (`WholeWrite`, `WholeSend`).
- `kapi_kfifo_init` accepts sizes that are not powers of two, for which the queue loses its order
  (`OtherSizesLoseOrder`).
- `dns_decode_name` takes only bytes from 192 up as pointers, so labels of up to 191 bytes work both
  ways; a 253-byte name does not fit its own name buffer (`LongestRefused`); pointers in a circle are followed for ever
  (`EndsIff`, `NoReplyIff`).

## Model

| member | source | states |
|---|---|---|
| RbTree.RbRoot.Erase | kernel/api/kapi_rbtree.c:141-290 | From any valid tree any node is taken out: the in-order sequence is the old one without it, and child links, parent links, black root, no red node over a red one and equal black heights all hold again |
| RbTree.RbRoot.RepairErase | kernel/api/kapi_rbtree.c:219-289 | The delete fixup ends in a valid tree from any tree with one subtree a black short, with the same in-order sequence; the sibling exists on every turn and the loop stops |
| RbTree.RbRoot.TakeSuccessor | kernel/api/kapi_rbtree.c:155-175 | The successor is the leftmost node of the right subtree, it is taken out of its place, and the rest of the tree is as it was |
| RbTree.RbRoot.Splice | kernel/api/kapi_rbtree.c:151-200 | With two children the successor takes the node's place and colour; only a black successor leaves a path short, and exactly by one |
| RbTree.RbRoot.Drop | kernel/api/kapi_rbtree.c:147-217 | With at most one child that child moves up; only a black node leaves a path short, and exactly by one |
| RbTree.RbRoot.RedSiblingRight | kernel/api/kapi_rbtree.c:225-230 | A red sibling is turned over: the deficit stays where it was and the new sibling is black |
| RbTree.RbRoot.FarNephewRight | kernel/api/kapi_rbtree.c:244-251 | A red far nephew settles the deficit for good |
| RbTree.RbRoot.NearNephewRight | kernel/api/kapi_rbtree.c:238-243 | A red near nephew becomes a far one |
| RbTree.RbRoot.PassUp | kernel/api/kapi_rbtree.c:232-236 | With a black sibling without red children the deficit moves to the parent |
| RbTree.RbRoot.RedSiblingLeft | kernel/api/kapi_rbtree.c:256-261 | The mirror image of the red sibling |
| RbTree.RbRoot.FarNephewLeft | kernel/api/kapi_rbtree.c:275-282 | The mirror image of the far nephew |
| RbTree.RbRoot.NearNephewLeft | kernel/api/kapi_rbtree.c:269-274 | The mirror image of the near nephew |
| RbTree.RbRoot.RepairShortLeft | kernel/api/kapi_rbtree.c:222-252 | One turn of the delete fixup for a short left subtree: done, or a smaller deficit problem; the sibling is there |
| RbTree.RbRoot.RepairShortRight | kernel/api/kapi_rbtree.c:253-284 | The mirror image of that turn |
| RbTree.RbRoot.PaintChild | kernel/api/kapi_rbtree.c:286-288 | Blackening the last child removes the deficit it stands for |
| RbTree.RbRoot.Substitute | kernel/api/kapi_rbtree.c:181-199 | One node takes over place, colour, children and links of another |
| RbTree.RbRoot.Unlink | kernel/api/kapi_rbtree.c:203-217 | A node with at most one child is bypassed and all links agree |
| RbTree.RbRoot.constructor | kernel/api/kapi_rbtree.c:67-290 | The empty tree is valid, and so a start for every run |
| RbTree.RbRoot.Insert | kernel/api/kapi_rbtree.c:67-139 | The node lands after everything it does not precede and before everything it precedes, and every red-black and link invariant holds |
| RbTree.RbRoot.RepairInsert | kernel/api/kapi_rbtree.c:88-138 | The insert fixup makes a tree with at most one red node over a red one valid, in both mirror cases, without moving anything in the in-order sequence |
| RbTree.RbRoot.FixLeft | kernel/api/kapi_rbtree.c:91-112 | One turn of the insert fixup under a left child: a problem two levels up, or none; links and in-order sequence agree |
| RbTree.RbRoot.FixRight | kernel/api/kapi_rbtree.c:113-134 | The mirror image of that turn |
| RbTree.RbRoot.RepairUncle | kernel/api/kapi_rbtree.c:93-100 | With a red uncle the problem moves two levels up |
| RbTree.RbRoot.RepairLeft | kernel/api/kapi_rbtree.c:102-112 | With a black uncle on the right one or two rotations solve it |
| RbTree.RbRoot.RepairRight | kernel/api/kapi_rbtree.c:124-134 | The mirror image, with the black uncle on the left |
| RbTree.RbRoot.Hang | kernel/api/kapi_rbtree.c:82-138 | A red node hung at an empty place of a valid tree, repaired, gives a valid tree with the node at that place in order |
| RbTree.RbRoot.RotateLeft | kernel/api/kapi_rbtree.c:21-42 | A left rotation changes exactly the one edge, all links agree, and the in-order sequence stays |
| RbTree.RbRoot.RotateRight | kernel/api/kapi_rbtree.c:44-65 | The mirror image, likewise |
| RbTree.FollowsOrder | kernel/api/kapi_rbtree.c:73-80 | The path an insert takes separates the elements that precede the new node from those that do not, for every total preorder |
| RbTree.MissesAll | kernel/api/kapi_rbtree.c:292-308 | When the search path of a key falls off a sorted tree, no node of the tree compares equal to it |
| RbTree.RbRoot.Find | kernel/api/kapi_rbtree.c:292-308 | An equal node is returned if there is one, null only if there is none |
| RbTree.RbRoot.First | kernel/api/kapi_rbtree.c:310-321 | The first node in order, null for an empty tree |
| RbTree.RbRoot.Next | kernel/api/kapi_rbtree.c:323-341 | The in-order successor by links alone, null after the last |
| RbTree.RbRoot.Climb | kernel/api/kapi_rbtree.c:335-340 | Climbing parents from the last node of a subtree comes to the node after it |
| RbTree.RbRoot.Walk | kernel/api/kapi_rbtree.c:310-341 | First and repeated next visit the whole in-order sequence and then stop |
| RbTree.RbRoot.AddSorted | kernel/api/kapi_rbtree.c:67-139 | Insert keeps a sorted tree sorted |
| RbTree.RbRoot.RemoveSorted | kernel/api/kapi_rbtree.c:141-290 | Erase keeps a sorted tree sorted |
| RbShape.InOrderOnce | kernel/api/kapi_rbtree.c:310-341 | No node occurs twice in that sequence |
| RbTree.RbRoot.Run | kernel/api/kapi_rbtree.c:67-290 | After every legal sequence of inserts and erases the tree is sorted and valid, holds exactly the right nodes, and 2^height <= (n + 1)^2 |
| RbShape.HeightLaw | kernel/api/kapi_rbtree.c:67-290 | The height of any red-black tree is at most 2 log2(n + 1) |
| RbShape.HeightByBlackHeight | kernel/api/kapi_rbtree.c:67-290 | No path is longer than twice the black height, and one more below a red root |
| RbShape.SizeByBlackHeight | kernel/api/kapi_rbtree.c:67-290 | A tree of black height b has at least 2^b - 1 nodes |
| RbShape.FitsIffRedBlack | kernel/api/kapi_rbtree.c:67-290 | A subtree can be judged alone: the whole is red-black exactly when the subtree is and the context accepts its colour and black height |
| Pool.MemoryPool.Alloc | kernel/arch/x86_64/memory.c:30-70 | The exact new table, counters and return value for every size below 2^64; the pool stays sound unless `Overruns`; an address is a new block of at least the size asked for, in a sound pool with nothing else changed, exactly if the size rounds up without wrapping and a dead block is reused or the bump pointer does not wrap |
| Pool.AllocatedGives | kernel/arch/x86_64/memory.c:30-70 | That equivalence, for every sound pool and size |
| Pool.AllocatedSound | kernel/arch/x86_64/memory.c:30-70 | A request damages the pool exactly if no dead block is large enough, a slot is dead and the limit test wraps |
| Pool.AllocatedFails | kernel/arch/x86_64/memory.c:30-70 | Exactly when null is returned, sizes that round to zero included, and that a null for any other size changes nothing |
| Pool.BumpedSound | kernel/arch/x86_64/memory.c:46-66 | Carving keeps the pool sound and gives a new block exactly if the bump pointer does not wrap |
| Pool.ReusedFirst | kernel/arch/x86_64/memory.c:36-44 | A dead block that is large enough is always taken before new pages, and the first such one |
| Pool.OverrunFirst | kernel/arch/x86_64/memory.c:30-70 | A first request of 2^64 - 8192 bytes succeeds and leaves the pool damaged |
| Pool.PageForAll | kernel/arch/x86_64/memory.c:30-84 | A page given back answers a request for 2^64 - 1 bytes |
| Pool.FreedTwice | kernel/arch/x86_64/memory.c:72-84 | A page freed twice leaves the accounting wrong |
| Pool.AllocatedReserves | kernel/arch/x86_64/memory.c:30-70 | An address of a live block, or of no block and below the bump pointer or past the limit, is never given out, whatever is asked for |
| Pool.OutsideReserved | kernel/arch/x86_64/memory.c:30-70 | and so none outside the pool is |
| PageMap.FirstGiven | kernel/arch/x86_64/memory.c:30-70 | A concrete address in the pool that is given out |
| Pool.MemoryPool.Reuse | kernel/arch/x86_64/memory.c:36-44 | Exactly the first dead block that is large enough becomes live again, at its address; found exactly when there is one |
| Pool.MemoryPool.Carve | kernel/arch/x86_64/memory.c:50-69 | A block at the bump pointer in the first dead slot, the pointer and the sums moved on by its size; none, and nothing changed, exactly when all slots are live |
| Pool.MemoryPool.constructor | kernel/arch/x86_64/memory.c:12-28 | An empty pool satisfies every invariant |
| Pool.MemoryPool.Free | kernel/arch/x86_64/memory.c:72-84 | The first slot at the address dies and nothing else changes; the accounting stays right exactly when the block is live, unknown or null |
| Pool.FreedExact | kernel/arch/x86_64/memory.c:72-84 | Freeing forgets exactly that live block, and keeps the pool sound exactly in those cases |
| Pool.MemoryPool.GetFree | kernel/arch/x86_64/memory.c:86-89 | Total minus used, which never goes below zero |
| Pool.LiveDisjoint | kernel/arch/x86_64/memory.c:30-84 | Live blocks are page aligned, below the bump pointer and pairwise disjoint |
| Pool.LimitTestExact | kernel/arch/x86_64/memory.c:46-48 | The 64-bit limit test says what it means exactly when the sum does not wrap |
| Pool.LimitTestDefeated | kernel/arch/x86_64/memory.c:46-48 | A concrete size near 2^64 passes the limit test and moves the bump pointer back |
| PageMap.Pager.Run | kernel/arch/x86_64/memory.c:278-315 | Every sequence of maps and unmaps, on any tree of tables that the pool will not give out, wherever they lie, does to all translations what its calls that succeed on pages without a 2 MiB entry do to one flat map keyed by address bits 12 to 47 |
| PageMap.Pager.MapPage | kernel/arch/x86_64/memory.c:278-297 | Sets exactly one page of the flat map if the walk meets no 2 MiB entry; fails only when the pool has no page left, and then no translation has changed; never fails when the tables are there. If the walk meets one, the entry is stored into the page at its frame and the map stays as it is, unless that page is a table; -1 at frame 0. Of all page-table entries exactly that of the page changes, and it holds the frame and the flags passed |
| PageMap.Pager.UnmapPage | kernel/arch/x86_64/memory.c:299-315 | Clears exactly one page of the flat map; under a 2 MiB entry the zero goes to the page at its frame; of all page-table entries exactly that of the page becomes 0 |
| PageMap.Pager.Poke | kernel/arch/x86_64/memory.c:294-313 | What a store through a page-table pointer does in every case: an ordinary word, the entry of exactly one page, or an entry of an upper table |
| PageMap.HugeStays | kernel/arch/x86_64/memory.c:278-336 | Concrete tables with one 2 MiB entry of frame 4 GiB: every address below 2 MiB is translated to 4 GiB plus the address, and mapping a page there succeeds and changes no translation |
| PageTree.ReachedIff | kernel/arch/x86_64/memory.c:278-336 | The walks that come to a table are exactly those of the pages below its place |
| PageMap.Pager.GetPhysical | kernel/arch/x86_64/memory.c:317-336 | The frame of the 2 MiB entry on the walk plus the address modulo 2 MiB, or the frame of the page-table entry plus the address modulo 4096, or 0; it agrees with the flat map for every address |
| PageMap.MapThenGet | kernel/arch/x86_64/memory.c:278-336 | A page that is mapped is read back: its addresses are translated into the frame, and every other address as before |
| PageMap.WalkIs | kernel/arch/x86_64/memory.c:317-336 | The walk in terms of the bits of the entries: bit 0 present, bit 7 of a level 2 entry 2 MiB |
| PageTree.EntryFields | kernel/arch/x86_64/memory.c:317-336 | Presence is bit 0, size is bit 7, the frame is bits 12 to 51 of an entry |
| PageTree.TableEntryIs | kernel/arch/x86_64/memory.c:226-236 | The entry for a new table is its address plus 3: present and writable |
| PageTree.LeafBits | kernel/arch/x86_64/memory.c:294-294 | Every bit of the frame, of the flags passed and the present bit are in the stored entry, and no other |
| PageTree.PageOfIs | kernel/arch/x86_64/memory.c:282-285 | The page number is address bits 12 to 47 |
| PageMap.Pager.TableBelow | kernel/arch/x86_64/memory.c:226-236 | The table an entry names, made empty when absent, changing no translation |
| PageMap.Pager.Create | kernel/arch/x86_64/memory.c:243-253 | An empty address space, exactly when the pool has a page |
| PageMap.HugeOffset | kernel/arch/x86_64/memory.c:329-331 | The offset in a 2 MiB page is the page-table index and the page offset together |
| PageTree.LeafChange | kernel/arch/x86_64/memory.c:278-315 | Changing one entry of a page table changes the walk of that one page only |
| PageTree.LeafStored | kernel/arch/x86_64/memory.c:294-313 | and after it that page's own walk finds the new entry |
| PageTree.AddKeepsWalk | kernel/arch/x86_64/memory.c:226-236 | Linking an empty table changes no walk |
| PageTree.AddKeepsTree | kernel/arch/x86_64/memory.c:226-236 | and keeps the tables a tree |
| PageMap.LeafKeepsHuge | kernel/arch/x86_64/memory.c:278-315 | Page-table entries change on no walk which 2 MiB entry it meets |
| PageMap.AddKeepsHuge | kernel/arch/x86_64/memory.c:226-236 | Nor do new tables |
| PageMap.Pager.Tables | kernel/arch/x86_64/memory.c:287-292 | The page table for an address, missing tables made on the way; the frame of a 2 MiB entry is taken for one |
| PageMap.Pager.FindTable | kernel/arch/x86_64/memory.c:303-312 | The same for unmapping, without making tables |
| PageMap.Pager.Over | kernel/arch/x86_64/memory.c:238-241 | Tables that are in use already, in the pool or outside it, have exactly one flat map |
| PageMap.Pager.FreshPage | kernel/arch/x86_64/memory.c:231-232 | The page taken for a new table is none of the tables there are |
| PageTree.TableEntry | kernel/arch/x86_64/memory.c:226-236 | The entry written for a new table is present, not huge, and names that table |
| PageTree.LeafFrame | kernel/arch/x86_64/memory.c:294-294 | The entry written for a frame gives that frame back |
| PageTree.IndexField | kernel/arch/x86_64/memory.c:282-285 | The shift and mask of each level pick that level's digit of the page number |
| ExtentTree.DescentIsScan | kernel/arch/x86_64/ext4.c:360-424 | On every tree whose keys are sorted and bound their subtrees, the descent finds what a linear scan of all leaf extents finds, and fails exactly when that does |
| ExtentTree.LengthExact | kernel/arch/x86_64/ext4.c:404-409 | The length used is that of the format exactly for raw lengths other than 0 and 0x8000; 0x8000 gives 1 |
| ExtentTree.HeaderIs | kernel/arch/x86_64/include/arch/ext4.h:229-235 | The bytes 0A F3, the entry count at byte 2 and the depth at byte 6 make a node |
| ExtentTree.ExtentIs | kernel/arch/x86_64/include/arch/ext4.h:244-249 | An extent with its 48-bit start, written out in twelve bytes, is read back |
| ExtentTree.IndexIs | kernel/arch/x86_64/include/arch/ext4.h:237-242 | and so is an index entry with its 48-bit child |
| ExtentTree.RunContiguous | kernel/arch/x86_64/ext4.c:412-417 | Every block of the returned run maps to consecutive blocks |
| ExtentTree.RunIs | kernel/arch/x86_64/ext4.c:412-417 | The extent that covers a block gives start plus distance, and a run to its end |
| ExtentTree.PickIsBracket | kernel/arch/x86_64/ext4.c:375-392 | The index entry chosen is the one whose key range holds the block |
| ExtentTree.TreeOrdered | kernel/arch/x86_64/ext4.c:360-424 | The leaf extents of such a tree are ascending and within bounds |
| ExtentTree.ScanIff | kernel/arch/x86_64/ext4.c:403-421 | The scan fails exactly when no extent covers the block, and otherwise returns one that does |
| ExtentTree.ScanUnique | kernel/arch/x86_64/ext4.c:403-421 | That extent is the only one |
| ExtentTree.ReadExtentBlock | kernel/arch/x86_64/ext4.c:360-424 | The loops over a reused block buffer compute the recursive descent |
| ExtentTree.PickEntry | kernel/arch/x86_64/ext4.c:375-392 | The index loop finds the bracketing entry |
| ExtentTree.ScanLeaf | kernel/arch/x86_64/ext4.c:403-421 | The leaf loop is the linear scan of that leaf |
| BlockMap.MapIsFlat | kernel/arch/x86_64/ext4.c:304-349 | Logical block n is entry n of direct, indirect, double and triple leaves laid end to end, holes failing, for all n below 2^32 + 12 |
| BlockMap.LeavesAre | kernel/arch/x86_64/ext4.c:282-302 | Below an indirect block lie, in order, the leaves below its little-endian four-byte entries |
| BlockMap.LookIsLeaf | kernel/arch/x86_64/ext4.c:282-302 | Digit-by-digit look-up through any number of indirect levels is one leaf of the flattened map |
| BlockMap.MapWraps | kernel/arch/x86_64/ext4.c:313-313 | From 2^32 + 12 on, the 32-bit cast repeats the map |
| BlockMap.MapPastBound | kernel/arch/x86_64/ext4.c:313-313 | A file system on which a block past the whole map resolves |
| Ext4File.ReadFile | kernel/arch/x86_64/ext4.c:426-459 | The buffer receives exactly the requested slice of the file, clipped to its size, holes as zeros, and nothing past it is touched; where offset plus length wraps it goes on from the start of the file, for block sizes that divide 2^64 as all powers of two do; the result is the smaller of the length and the rest of the file, if that is below 2^31 |
| Ext4File.ReadChunk | kernel/arch/x86_64/ext4.c:438-456 | One turn copies file bytes up to a block end and touches nothing else |
| Ext4File.CopyBlock | kernel/arch/x86_64/ext4.c:443-452 | A part of one block, zeros for a hole or an unreadable block |
| Ext4File.ResolveBlock | kernel/arch/x86_64/ext4.c:351-359 | The block by whichever map the inode uses |
| Ext4File.ClipExact | kernel/arch/x86_64/ext4.c:431-432 | The length is clipped to the file exactly when offset plus length does not wrap |
| Ext4File.ClipMissed | kernel/arch/x86_64/ext4.c:431-432 | A concrete request that is not clipped |
| Ext4File.MappedByte | kernel/arch/x86_64/ext4.c:426-459 | With the block map, byte k of the file is a byte of entry k / blocksize of the flattened map |
| Ext4File.ExtentByte | kernel/arch/x86_64/ext4.c:426-459 | With extents, it is the byte the linear scan points to |
| Ext4File.OneExtentReads | kernel/arch/x86_64/ext4.c:360-459 | A file whose block area is, byte for byte, a node with one extent consists of the blocks from its start on |
| Ext4File.NumbersAre | kernel/arch/x86_64/ext4.c:304-312 | Block number i of the block area is the four bytes from 4 * i on |
| Mmap.MmapContext.FindFreeArea | kernel/arch/x86_64/mmap.c:126-167 | The highest start whose whole range is free below the search start; 0 only if there is none; the candidate falls on every turn; what is returned lies below the search start exactly if minimum address plus length does not wrap |
| Mmap.MmapContext.HighestCandidate | kernel/arch/x86_64/mmap.c:142-157 | No range between the start of a covering area and the candidate is free |
| Mmap.FreeMeansUnmapped | kernel/arch/x86_64/mmap.c:169-200 | The overlap test is exact: a range meets no area exactly when none of its addresses is mapped |
| Mmap.MmapContext.FindCovering | kernel/arch/x86_64/mmap.c:185-200 | The first overlapping area, or none overlaps |
| Mmap.MmapContext.AllocSlot | kernel/arch/x86_64/mmap.c:216-224 | The first inactive slot; none exactly when the table is full |
| Mmap.MmapContext.Munmap | kernel/arch/x86_64/mmap.c:420-511 | The covered addresses become the old ones minus the range, exactly when no tail is lost, and otherwise minus all of the split area from the address on; 0 exactly if an area was met; areas stay disjoint, for ranges that wrap around 2^64 exactly if the table is full or no area is met |
| MmapCut.UnmapExact | kernel/arch/x86_64/mmap.c:433-506 | Which addresses unmapping leaves, for every table of disjoint areas and every range, wrapped ones included: the tail is lost exactly when the table is full and both ends lie strictly inside one area |
| MmapCut.UnmapApart | kernel/arch/x86_64/mmap.c:433-506 | The loop leaves no overlap with the range, and areas stay disjoint exactly if the range does not run backwards, the table is full or no area must be split |
| MmapCut.UnmapTrims | kernel/arch/x86_64/mmap.c:469-484 | Where no area must be split, the loop that restarts after every change trims each area once |
| MmapCut.UnmapSplits | kernel/arch/x86_64/mmap.c:485-504 | An area that must be split is the only one the range meets |
| MmapCut.SplitRoom | kernel/arch/x86_64/mmap.c:485-504 | A split with a free slot removes exactly the range; the halves are apart exactly if the range does not run backwards |
| MmapCut.SplitFull | kernel/arch/x86_64/mmap.c:485-504 | Without a slot everything from the address to the end of the area goes |
| MmapCut.BackwardsOverlap | kernel/arch/x86_64/mmap.c:433-506 | A concrete wrapping range that leaves two overlapping areas |
| MmapCut.UnmapShows | kernel/arch/x86_64/mmap.c:469-504 | What stays mapped keeps its rights, and shows the same byte of its file exactly unless an area at file offset 0 lost its first bytes |
| MmapCut.StartTrimmed | kernel/arch/x86_64/mmap.c:473-480 | A concrete such area, whose second page shows the first page of the file afterwards |
| Mmap.MmapContext.Cut | kernel/arch/x86_64/mmap.c:439-505 | One turn leaves exactly the trimmed, removed or split table, and one overlap fewer |
| Mmap.MmapContext.CutAll | kernel/arch/x86_64/mmap.c:433-506 | The loop comes to the recursive definition of unmapping, and ends |
| Mmap.MmapContext.Split | kernel/arch/x86_64/mmap.c:485-504 | Head and tail with their rights and file offsets, the tail in the first free slot, or dropped when there is none |
| Mmap.MmapContext.DoMmap | kernel/arch/x86_64/mmap.c:226-418 | Bad arguments change nothing; a success adds exactly the new range, which was free, as the area asked for: the address asked for or else the highest free one; it fails only on a full table, for want of pages or of room; with MAP_FIXED exactly the range changes, unless a tail is lost, and then the call fails; exactly when a range past 2^64 leaves an invalid table; without flag 16 every address that was mapped stays mapped, and with it and an address a success is at that address |
| Mmap.HintTaken | kernel/arch/x86_64/mmap.c:258-287 | A concrete hint without MAP_FIXED on a taken range: the old area stays and the new one lies elsewhere |
| Mmap.MmapContext.RequestIs | kernel/arch/x86_64/mmap.c:229-256 | Exactly which lengths, rights, flags, offsets and addresses are refused, which mappings need pages and which are fixed, in numbers |
| Mmap.MmapContext.FlagBits | kernel/arch/x86_64/mmap.c:229-262 | The flag tests as bits of the flag word |
| Mmap.MmapContext.MarkedIs | kernel/arch/x86_64/mmap.c:285-415 | Which flag is added to an area that is populated or copied on write |
| Mmap.MmapContext.MapAnywhere | kernel/arch/x86_64/mmap.c:266-287 | Without MAP_FIXED the table becomes invalid exactly if the request ends past 2^64 and neither the wrapped overlap test, a full table nor missing pages stop it |
| Mmap.PastTheEnd | kernel/arch/x86_64/mmap.c:226-418 | A concrete request at the last page that leaves an area past 2^64 |
| Mmap.MmapContext.MapFixed | kernel/arch/x86_64/mmap.c:261-264 | With MAP_FIXED: the new table for every range, and exactly when it is valid |
| Mmap.MmapContext.ReplacedForward | kernel/arch/x86_64/mmap.c:261-310 | Unmapping and entering a range that does not wrap changes exactly that range, or loses one tail and fails |
| Mmap.MmapContext.ReplacedBackward | kernel/arch/x86_64/mmap.c:261-310 | With a range past 2^64 the table stays valid exactly if it was full, or no area was met and the pages are missing |
| Mmap.MmapContext.Enter | kernel/arch/x86_64/mmap.c:285-415 | The area goes into the first free slot, marked as populated or copy-on-write; on a full table or without pages nothing stays mapped |
| Mmap.MmapContext.EnterFree | kernel/arch/x86_64/mmap.c:285-415 | Entering a free range adds exactly it, and past 2^64 leaves an area that ends outside the address space |
| Mmap.RegionIff | kernel/arch/x86_64/mmap.c:258-311 | With searching and entering under locks of their own: areas stay apart exactly if the range that was found is still free, and inside the address space, when it is entered |
| Mmap.AfterAll | kernel/arch/x86_64/mmap.c:226-511 | and so they do in every run of unmappings and entries in which that holds |
| Mmap.FoundTwice | kernel/arch/x86_64/mmap.c:126-311 | Two calls that search before either enters get the same range, and the areas overlap |
| Mmap.MmapContext.constructor | kernel/arch/x86_64/mmap.c:66-72 | An empty table maps nothing |
| MmapTable.Shrink | kernel/arch/x86_64/mmap.c:469-505 | Shrinking one area keeps the rest and removes exactly what it gave up |
| MmapTable.Place | kernel/arch/x86_64/mmap.c:287-310 | Filling a free slot adds exactly the new area |
| Journal.CrashSafe | kernel/arch/x86_64/jbd2.c:284-441 | Recovery stopped after any number of its device writes, the next one half done with any result, and started again leaves the same disk as one uninterrupted recovery |
| Journal.ManyCrashesSafe | kernel/arch/x86_64/jbd2.c:284-441 | and so do any number of crashes, each at its own place |
| Journal.RecoverTwice | kernel/arch/x86_64/jbd2.c:284-441 | Recovering a recovered disk changes nothing |
| JournalLog.WritesNamed | kernel/arch/x86_64/jbd2.c:363-422 | A block is written exactly when a descriptor of a transaction with a commit record names it |
| JournalLog.WritesAscending | kernel/arch/x86_64/jbd2.c:363-422 | Writes come in ascending transaction order |
| JournalLog.WritesInOrder | kernel/arch/x86_64/jbd2.c:363-422 | Within a transaction writes come in the order of its descriptors in the log and of the lists in them |
| JournalLog.RecordsAre | kernel/arch/x86_64/jbd2.c:315-338 | Exactly the log blocks up to 65536 that start like a record are records |
| JournalLog.RecordFields | kernel/arch/x86_64/jbd2.c:320-336 | The bytes of a record: magic 98 39 3B C0, a kind from 1 to 3, the transaction number from byte 8 and the count from byte 16 on |
| JournalLog.TargetIs | kernel/arch/x86_64/jbd2.c:397-401 | Target i is the eight bytes from 4100 + 8 * i on |
| JournalLog.NewestWins | kernel/arch/x86_64/jbd2.c:363-422 | Afterwards each block holds the data of the newest committed transaction that names it, or what it held before |
| JournalLog.WritesSame | kernel/arch/x86_64/jbd2.c:315-422 | What recovery writes depends on the log blocks only |
| JournalLog.ApplyOver | kernel/arch/x86_64/jbd2.c:363-422 | The writes leave the same device whatever the blocks they go to held |
| JournalLog.NothingFits | kernel/arch/x86_64/jbd2.c:397-401 | With blocks below 4108 bytes, 4096 among them, the 4100-byte header leaves no room for a target list: recovery that stays in its buffers replays nothing |
| JournalLog.ReplaysIff | kernel/arch/x86_64/jbd2.c:397-401 | Some log is replayed inside its buffers exactly if a block has at least 4108 bytes |
| JournalLog.SectorsApart | kernel/arch/x86_64/jbd2.c:73-74 | Blocks whose sector numbers stay below 2^64 share no sector |
| JournalLog.SectorsWrap | kernel/arch/x86_64/jbd2.c:73-74 | Block 2^61 + k of 4096 bytes is written to the sectors of block k |
| Journal.Recovery.Load | kernel/arch/x86_64/jbd2.c:284-441 | The loops perform exactly the writes of the recovery, in order, and leave the disk that recovery defines; as many transactions are counted as have a commit record, and last_commit_id becomes the old one or a committed transaction, below neither the old one nor any committed one, with the next number kept and all blocks free; -1 without initialization |
| Journal.Recovery.Restore | kernel/arch/x86_64/jbd2.c:315-441 | The same for a journal that is initialized, in terms of the recovery as a function |
| Journal.SuperIs | kernel/arch/x86_64/jbd2.c:424-438 | The superblock after any log: which transaction it names as last, which number comes next, and that a log without transactions leaves it alone |
| Journal.ReplayedIs | kernel/arch/x86_64/jbd2.c:363-429 | The count of replayed transactions is the number of different transactions with a commit record |
| Journal.LoadEndsIff | kernel/arch/x86_64/jbd2.c:349-363 | The loop over transactions ends exactly if no record that is read is of transaction 2^64 - 1 |
| Journal.CounterPassesIff | kernel/arch/x86_64/jbd2.c:363-363 | The wrapping 64-bit counter passes the largest transaction number exactly if that is below 2^64 - 1 |
| Journal.OneRecordSpins | kernel/arch/x86_64/jbd2.c:363-363 | A concrete commit record with which recovery does not end |
| Journal.Recovery.constructor | kernel/arch/x86_64/jbd2.c:230-282 | The fields taken over from the superblock of a formatted journal, the blocks in use among them |
| Journal.Recovery.Scan | kernel/arch/x86_64/jbd2.c:315-338 | All records of the log in journal order, unreadable blocks skipped |
| Journal.Recovery.FindMaxTid | kernel/arch/x86_64/jbd2.c:349-354 | The largest transaction number in the log |
| Journal.Recovery.HasCommit | kernel/arch/x86_64/jbd2.c:367-375 | True exactly when the transaction has a commit record |
| Journal.Recovery.ReplayDescriptor | kernel/arch/x86_64/jbd2.c:390-421 | One descriptor: exactly its readable blocks go home, and reading stays in its buffer |
| Journal.Recovery.ReplayTransaction | kernel/arch/x86_64/jbd2.c:381-422 | One committed transaction: exactly its descriptors' blocks go home, in order |
| Journal.Recovery.ReplayEntry | kernel/arch/x86_64/jbd2.c:400-421 | One list entry: its data block goes to its target, nothing if it cannot be read |
| Journal.Recovery.ReplayAll | kernel/arch/x86_64/jbd2.c:363-429 | All committed transactions; the checkpoint ends at the old one or a committed one, below neither the old one nor any committed one in range |
| TimerList.OneShotIff | kernel/kernel/timer.c:221-245 | In any run that reaches the expiry a one-shot timer fires exactly once, when jiffies equals it, if and only if 1 to 65535 ticks of its delay are left when it is linked and, from 256 on, the expiry is no multiple of 256 |
| TimerList.ArmedFires | kernel/kernel/timer.c:198-245 | For every delay, whenever jiffies was read, and whatever other timers are armed: it fires once at its fire time or not at all |
| TimerList.OnTimeIff | kernel/kernel/timer.c:49-65 | Exactly which delays have their expiry as fire time, which come 256 ticks late, and which never |
| TimerList.LateAndNever | kernel/kernel/timer.c:49-65 | A delay of 256 ticks that takes 512, and one of 65536 that never ends |
| TimerList.ReadEarly | kernel/kernel/timer.c:221-236 | A delay of one tick that takes 257 or never ends, when one or two ticks pass between reading jiffies and the lock |
| TimerList.FiresOnce | kernel/kernel/timer.c:198-206 | From any state an armed timer fires once at its due tick, and stays armed until then |
| TimerWheel.Wheel.Drive | kernel/kernel/timer.c:109-245 | Every run of the four-level wheel is the same run of the flat list of due times |
| TimerWheel.Wheel.TickWheel | kernel/kernel/timer.c:198-206 | A tick fires exactly the timers due at it, each once, and no other due time changes; the callbacks come in the order of the slot's list |
| TimerWheel.Wheel.ExpireSlot | kernel/kernel/timer.c:126-147 | The expired slot: its callbacks in order, and every other due time kept |
| TimerWheel.Wheel.EndRound | kernel/kernel/timer.c:149-151 | Every 256 ticks a cascade, which changes no due time; otherwise nothing |
| TimerWheel.Wheel.Cascade | kernel/kernel/timer.c:109-124 | The cascade moves the coming round to level 0 and changes no due time |
| TimerWheel.Wheel.Enqueue | kernel/kernel/timer.c:67-91 | A timer goes to the end of exactly one list, the one its due time calls for, and no other list changes |
| TimerWheel.Wheel.AddOneshot | kernel/kernel/timer.c:221-245 | Arming, with jiffies read at any earlier tick, adds one due time to the flat list |
| TimerWheel.MsToJiffies | kernel/kernel/timer.c:43-47 | A delay of 0 ms is one tick, any other as many ticks as milliseconds |
| TimerWheel.Wheel.Detach | kernel/kernel/timer.c:111-116 | Exactly the timers of a slot come off, each once, in their order |
| TimerWheel.Wheel.Call | kernel/kernel/timer.c:132-140 | One callback for each timer of the expired list, in list order |
| TimerWheel.Wheel.constructor | kernel/kernel/timer.c:25-31 | An empty wheel at tick 0 |
| TimerWheel.PlacedRight | kernel/kernel/timer.c:49-65 | Level and slot for any expiry agree with its fire time |
| TimerWheel.CascadeRound | kernel/kernel/timer.c:113-114 | The slot cascaded at a tick holds exactly expiries of the coming 256 ticks |
| TimerWheel.DueIff | kernel/kernel/timer.c:128-130 | The slot expired at a tick holds exactly the timers due at it |
| TimerWheel.Expired | kernel/kernel/timer.c:126-147 | Emptying the current slot is one tick of the flat list |
| Pipe.RunFrom | kernel/kernel/fifo.c:47-181 | After every interleaving of reads, writes and closes, the bytes returned followed by the bytes queued are the bytes accepted, each call's bytes in its own order, and every call reports what it moved |
| Pipe.PipeObject.Run | kernel/kernel/fifo.c:47-242 | Every interleaving on the ring is the same interleaving on a byte queue |
| Pipe.ShortRead | kernel/kernel/fifo.c:66-71 | A read that ends short found the writer closed and everything accepted already returned |
| Pipe.Passes | kernel/kernel/fifo.c:47-181 | What is written into an empty pipe and fits in 4096 bytes is, after the writer closes, what a read gets |
| Pipe.ReadAfterClose | kernel/kernel/fifo.c:64-106 | After the writer closes a read of less than 2^32 bytes ends in two turns with as many of the oldest bytes as there are |
| Pipe.WriteAfterClose | kernel/kernel/fifo.c:134-137 | After the reader closes a write ends in one turn, with -1 if it has written nothing |
| Pipe.WriteFits | kernel/kernel/fifo.c:132-177 | A write with room for all that is left ends in two turns |
| Pipe.WriteTurn | kernel/kernel/fifo.c:132-177 | A turn with the reader open accepts exactly as many of the next bytes as there is room for |
| Pipe.ReadTurn | kernel/kernel/fifo.c:64-106 | A turn of a read: as many of the oldest bytes as it may take, an end, or nothing |
| Pipe.OpenedRead | kernel/kernel/fifo.c:47-62 | A read is refused exactly for a count of 0 |
| Pipe.HugeReadEnds | kernel/kernel/fifo.c:64-66 | With bytes queued a new read ends at once with 0 exactly from 2^63 bytes on |
| Pipe.TurnTakes | kernel/kernel/fifo.c:78-101 | With bytes queued a turn takes some exactly if the missing count is no multiple of 2^32 |
| Pipe.WholeWrite | kernel/kernel/fifo.c:132-177 | A write that is over with the reader open has written the low 32 bits of its length, all of it exactly below 2^32 bytes |
| Pipe.StepKeeps | kernel/kernel/fifo.c:47-242 | Every single step keeps this, whatever came before; a write that is over reports -1 exactly if it is empty or wrote none of what it should |
| Pipe.PipeObject.Do | kernel/kernel/fifo.c:47-242 | Each step on the ring is that step on the queue |
| Pipe.PipeObject.IterateRead | kernel/kernel/fifo.c:64-106 | One turn of the read loop is one step of the queue: wait, end, or take the oldest bytes |
| Pipe.PipeObject.IterateWrite | kernel/kernel/fifo.c:132-177 | One turn of the write loop: end, wait, or append what fits |
| Pipe.PipeObject.constructor | kernel/kernel/fifo.c:14-37 | A new pipe is an empty queue with both ends open |
| UnixStream.RunFrom | kernel/kernel/unixsock.c:364-484 | The same conservation for one direction of a connected pair under every interleaving of sends, receives, shutdowns and closes |
| UnixStream.Link.Run | kernel/kernel/unixsock.c:364-484 | Every interleaving on the ring is the same interleaving on the queue |
| UnixStream.StepKeeps | kernel/kernel/unixsock.c:364-484 | Every single step keeps it; a receive reports 0 only after a close, a send less than its length only to a refusing end |
| UnixStream.EmptyRecv | kernel/kernel/unixsock.c:463-483 | A receive that reports 0 for a count it could have met found the peer closed and all that was sent already received |
| UnixStream.RecvTurn | kernel/kernel/unixsock.c:463-483 | With bytes queued one turn ends a receive, closed or not, with as many of the oldest as it asks for; with none it ends with 0 exactly if the peer is closed |
| UnixStream.RecvAfterClose | kernel/kernel/unixsock.c:463-483 | A close loses nothing that is queued |
| UnixStream.SendTurn | kernel/kernel/unixsock.c:382-420 | A turn of a send accepts exactly as many of the next bytes as there is room for in 4096, unless the other end refuses |
| UnixStream.SendAfterClose | kernel/kernel/unixsock.c:382-420 | After a close or a shutdown of the other end a send ends in one turn |
| UnixStream.SendFits | kernel/kernel/unixsock.c:382-420 | A send with room for all that is left ends in two turns |
| UnixStream.ShutRefuses | kernel/kernel/unixsock.c:364-459 | After its own shutdown an end starts no call |
| UnixStream.OpenedRecv | kernel/kernel/unixsock.c:450-459 | A receive is refused exactly for a count of 0 or a shut end |
| UnixStream.Passes | kernel/kernel/unixsock.c:364-484 | What is sent into an empty buffer and fits is what a receive gets, even after a close |
| UnixStream.WholeSend | kernel/kernel/unixsock.c:382-420 | A send that is over with no end refusing has sent the low 32 bits of its length |
| UnixStream.Link.Do | kernel/kernel/unixsock.c:364-484 | Each step on the ring is that step on the queue |
| UnixStream.Link.IterateSend | kernel/kernel/unixsock.c:382-420 | One turn of the send loop is one step of the queue |
| UnixStream.Link.IterateRecv | kernel/kernel/unixsock.c:463-483 | Waiting, the close, or one copy of the oldest bytes |
| ByteRing.Ring.Put | kernel/kernel/unixsock.c:58-83 | As much as fits is appended to the contents, though positions may rest at the size |
| ByteRing.Ring.Take | kernel/kernel/unixsock.c:85-109 | The oldest bytes come out, as many as asked for or as there are |
| StreamLog.AcceptConserves | kernel/kernel/fifo.c:148-172 | Accepting a chunk keeps returned plus queued equal to accepted |
| StreamLog.DeliverConserves | kernel/kernel/fifo.c:78-101 | and so does delivering one |
| KFifo.KfifoObject.Run | kernel/api/kapi_kfifo.c:41-132 | With a power-of-two size every run is a run of a bounded byte queue, however often the 32-bit counters wrap |
| KFifo.InAppends | kernel/api/kapi_kfifo.c:41-65 | What fits, and all that fits, is appended in order, around the end of the buffer and of the counters |
| KFifo.OutRemoves | kernel/api/kapi_kfifo.c:67-91 | The oldest bytes come out in order, as many as asked for and there are |
| KFifo.QueuePasses | kernel/api/kapi_kfifo.c:41-91 | What goes into an empty queue and fits comes out |
| KFifo.StepRefines | kernel/api/kapi_kfifo.c:41-132 | Every call on the counters is that call on the queue, byte for byte |
| KFifo.OtherSizesLoseOrder | kernel/api/kapi_kfifo.c:9-24 | For every other 32-bit size from 2 on there is a run in which a later byte comes out in place of the first |
| KFifo.OffsetAdvance | kernel/api/kapi_kfifo.c:53-53 | Advancing a counter by n, wrapping at 2^32, moves its masked offset by n around the buffer |
| KFifo.KfifoObject.Push | kernel/api/kapi_kfifo.c:41-65 | The two copies store exactly the accepted bytes; off plus length stays below 2^32 |
| KFifo.KfifoObject.Pop | kernel/api/kapi_kfifo.c:67-91 | The two copies return exactly the oldest bytes; off plus length stays below 2^32 |
| KFifo.KfifoObject.Len | kernel/api/kapi_kfifo.c:93-99 | The number of queued bytes |
| KFifo.KfifoObject.Avail | kernel/api/kapi_kfifo.c:101-107 | The room left |
| KFifo.KfifoObject.IsEmpty | kernel/api/kapi_kfifo.c:109-115 | True exactly for an empty queue |
| KFifo.KfifoObject.IsFull | kernel/api/kapi_kfifo.c:117-123 | True exactly for a full queue |
| DnsDecode.RoundTrip | kernel/arch/x86_64/dns.c:60-121 | Every host name with labels of 1 to 191 bytes decodes back to itself from any place in any buffer, the offset just past it |
| DnsName.EncodeIsWire | kernel/arch/x86_64/dns.c:60-83 | The encoder writes the wire form of section 3.1 of RFC 1035 exactly when it fits |
| DnsDecode.NameDecodes | kernel/arch/x86_64/dns.c:85-121 | Any name that the bytes spell, through labels and any chain of compression pointers (section 4.1.4 of RFC 1035), decodes to its text and the position just past it, exactly when the text fits the name buffer |
| DnsDecode.DecodeWire | kernel/arch/x86_64/dns.c:85-121 | A name on the wire decodes to its text exactly when the text fits the name buffer |
| DnsDecode.DecodePointer | kernel/arch/x86_64/dns.c:102-108 | For every offset below 2^14, the bytes 192 + offset / 256 and offset % 256 (section 4.1.4 of RFC 1035) decode to the name at that offset, the position just past the pointer |
| DnsDecode.DecodeCompressed | kernel/arch/x86_64/dns.c:85-121 | Labels that end in such a pointer to a plain name decode to both texts one after the other |
| DnsDecode.DecodeTorn | kernel/arch/x86_64/dns.c:92-114 | A message that ends before a length leaves the text open; one that ends in a pointer or a label is refused |
| DnsDecode.EndsIff | kernel/arch/x86_64/dns.c:92-116 | Decoding ends exactly if it does not come to a position from which pointers lead in a circle |
| DnsDecode.AllEndIff | kernel/arch/x86_64/dns.c:92-116 | Decoding ends from every position of a message exactly if no pointers in it lead in a circle |
| DnsDecode.LoopSpins | kernel/arch/x86_64/dns.c:102-108 | From such a circle decoding never ends |
| DnsDecode.BackwardEnds | kernel/arch/x86_64/dns.c:92-116 | If every pointer on the way points strictly back, decoding ends, on the name space left and then the position |
| DnsDecode.SelfPointerSpins | kernel/arch/x86_64/dns.c:102-108 | A pointer to itself is never left |
| DnsDecode.DecodeName | kernel/arch/x86_64/dns.c:85-121 | The loop ends wherever it meets no circle, and returns the outcome of the walk, with the text and its terminator in the name buffer |
| DnsName.EncodeName | kernel/arch/x86_64/dns.c:60-83 | The loop writes exactly the encoding into the buffer, or returns -1; bytes around it stay |
| DnsMessage.ParseFirst | kernel/arch/x86_64/dns.c:148-199 | A response whose bytes lay out questions and records one after the other (sections 4.1.1 to 4.1.4 of RFC 1035) yields the address and lifetime of its first A record, and -1 if it has none |
| DnsMessage.UsualParsed | kernel/arch/x86_64/dns.c:148-199 | The usual response, byte for byte, with one question and one answer named by the pointer C0 0C, yields its four address bytes and four lifetime bytes as numbers, highest byte first |
| DnsMessage.ErrorRefused | kernel/arch/x86_64/dns.c:151-157 | A message below 12 bytes or with a reply code in the low four bits of byte 3 has no answer |
| DnsWalk.BE32Is | kernel/arch/x86_64/dns.c:172-191 | The bytes of 16-bit and 32-bit fields, highest first |
| DnsMessage.ParseLaidOut | kernel/arch/x86_64/dns.c:148-199 | The same when names may be too long for the name buffer: what comes before the first such name counts |
| DnsMessage.QuestionsLaidOut | kernel/arch/x86_64/dns.c:160-168 | Questions that are laid out are passed over to the position after them |
| DnsMessage.RecordsLaidOut | kernel/arch/x86_64/dns.c:169-198 | Records that are laid out are read as records |
| DnsMessage.NoReplyIff | kernel/arch/x86_64/dns.c:148-199 | A message is read to an end exactly if no name read in it runs into a circle of pointers |
| DnsMessage.LoopFreeReplies | kernel/arch/x86_64/dns.c:148-199 | and so every message without such a circle is |
| DnsWalk.MessageNever | kernel/arch/x86_64/dns.c:148-199 | For any outcomes of the names: there is no reply exactly if one of the names read has no end |
| DnsMessage.FirstAddressIs | kernel/arch/x86_64/dns.c:185-191 | First means first: the record before which none is an A record of four bytes |
| DnsMessage.ParseResponse | kernel/arch/x86_64/dns.c:148-199 | The two loops compute that walk for every message that is read to an end, malformed ones included |
| DnsMessage.SkipQuestions | kernel/arch/x86_64/dns.c:160-168 | The question loop ends past the questions, or refuses |
| DnsMessage.FindAddress | kernel/arch/x86_64/dns.c:169-198 | The answer loop stops at the first A record of four bytes |
| DnsMessage.LongestRefused | kernel/arch/x86_64/dns.c:111-111 | A name of 253 bytes, the longest legal one, is refused |
| DnsMessage.QueryAsks | kernel/arch/x86_64/dns.c:123-146 | A built query starts with the identifier, the recursion bit and the counts 1, 0, 0, 0; its question decodes to the host name, its type and the Internet class |
| DnsMessage.BuildQuery | kernel/arch/x86_64/dns.c:123-146 | The buffer receives exactly that query, or -1 |
| QuickSort.QuickSort | kernel/api/kapi_sort.c:86-92 | A sorted permutation, for every total preorder |
| QuickSort.SortRange | kernel/api/kapi_sort.c:56-84 | The range is sorted by exchanges inside it |
| QuickSort.Partition | kernel/api/kapi_sort.c:61-79 | Everything up to the pivot's new place is at most it, everything after is above it |
| QuickSort.ScanBoth | kernel/api/kapi_sort.c:66-76 | The partition loop ends: the scans never meet on an element and each exchange makes both move on |
| QuickSort.ScanUp | kernel/api/kapi_sort.c:67-69 | Stops at the first element above the pivot, or past the end |
| QuickSort.ScanDown | kernel/api/kapi_sort.c:70-72 | Stops at the last element not above the pivot, or at the pivot |
| QuickSort.SidesSorted | kernel/api/kapi_sort.c:80-83 | Sorting both sides of a partition sorts the whole |
| HeapSort.Heapsort | kernel/api/kapi_sort.c:40-54 | A sorted permutation, for every total preorder |
| HeapSort.SiftDown | kernel/api/kapi_sort.c:21-38 | The heap property is restored below any root by exchanges |
| HeapSort.SiftStep | kernel/api/kapi_sort.c:32-36 | Exchanging with the larger child leaves only the child's place to repair |
| HeapSort.BuildHeap | kernel/api/kapi_sort.c:47-49 | Any array becomes a heap by exchanges |
| HeapSort.PlaceTop | kernel/api/kapi_sort.c:51-52 | One more element is in place, and the rest is a heap below it |
| HeapSort.HeapTop | kernel/api/kapi_sort.c:50-53 | The top of a heap is above everything in it |
| InsertSort.InsertionSort | kernel/api/kapi_sort.c:99-114 | A sorted permutation in which elements that compare equal keep their order |
| InsertSort.ArrangedIs | kernel/api/kapi_sort.c:99-114 | Repeated insertion behind equals sorts, permutes and is stable |
| InsertSort.InsertAt | kernel/api/kapi_sort.c:108-112 | The shifting loop inserts the element at its place |
| Line.Framebuffer.DrawLine | kernel/arch/x86_64/framebuffer.c:398-435 | Plots exactly the pixels of the rounded line, max(dx, dy) + 1 of them in order, clipped to the screen, and no others |
| Line.PixelEnds | kernel/arch/x86_64/framebuffer.c:420-422 | The line starts at (x0, y0), and reaches (x1, y1) only with its last pixel |
| Line.PixelNext | kernel/arch/x86_64/framebuffer.c:424-433 | Each pixel touches the one before and the longer axis always moves |
| Line.PixelNear | kernel/arch/x86_64/framebuffer.c:398-435 | Each pixel is within half a pixel of the true line on the minor axis |
| Line.Turn | kernel/arch/x86_64/framebuffer.c:424-433 | The two tests on the error term move exactly the axes the rounded line moves |
| Line.Move | kernel/arch/x86_64/framebuffer.c:424-433 | One turn of the loop, without overflow of the 32-bit error term |
| Line.Framebuffer.SetPixel | kernel/arch/x86_64/framebuffer.c:359-366 | One pixel changes if it is on the screen |

## Left out

- Pool.MemoryPool.Carve: the `order` field of a block is not modelled, because nothing reads it.
- PageMap.Pager.MapPage: says only which word is stored where the frame of a 2 MiB entry on the walk is that of a table above the page tables.
- PageMap.Pager.Over: tables at addresses the pool may still give out (`FirstGiven` shows one) are not covered, since a new table would then be laid over an old one.
- PageMap.Pager.Run: nor are 2 MiB entries of such frames on its walks, as these may become tables on the way.
- PageMap.Pager.Create: starts from no current page tables; copying the whole current root table shares tables and is not a tree.
- ExtentTree.ReadExtentBlock: reads index and extent entries that lie inside their blocks, on trees of depth at most the maximum; the code does not check either.
- BlockMap.MapIsFlat: stops at 2^32 + 12, from where `MapWraps` says what happens instead.
- Ext4File.ReadFile: a failed buffer allocation is not modelled.
- Mmap.MmapContext.Munmap: writing back dirty file pages and the page-table entries are not modelled.
- Mmap.MmapContext.DoMmap: is one step, where `RegionIff` has the search and the entry as two; whether pages can be provided is a parameter.
- Journal.Recovery.Load: needs home locations outside the journal and below sector 2^64, target lists inside their blocks, a loop that ends, and successful allocations and device writes; blocks are whole sectors and hold the three sectors of a superblock, as smaller ones would have it overwrite the first log block.
- Journal.CrashSafe: counts a target-list entry past the end of its block as target 0; the code would read past its buffer there.
- Journal.Recovery.constructor: a journal with a valid superblock; formatting a blank one is not modelled.
- TimerWheel.Wheel.AddOneshot: sets the one-shot flag in the same step as the timer is linked; the code sets it just after.
- Pipe.PipeObject.Run: null arguments, reference counts and freeing are not modelled.
- UnixStream.Link.Run: datagrams, connecting and naming are not modelled.
- KFifo.KfifoObject.Push: sizes up to 2^31, since above it offset plus length can wrap; `OtherSizesLoseOrder` covers those sizes too.
- DnsDecode.DecodeName: is called where its loop ends, which `EndsIff` settles; the code does not guard against pointer cycles.
- DnsMessage.ParseResponse: likewise for every name it reads, which `NoReplyIff` settles.
- InsertSort.InsertionSort: elements of at most 256 bytes, the size of the code's temporary.
- QuickSort.QuickSort: exchanges whole elements; the chunked byte copy of `kapi_swap` is not modelled.
- Line.Framebuffer.DrawLine: coordinates below 2^31 and a longer side below a third of that, so that the 32-bit arithmetic stays in range; pixels are addressed by row and column.
- Committing a journal transaction: data blocks, descriptor and recovery do not agree on the layout of the log.
- Periodic timers, timer deletion and modification, high-resolution timers.
- The buddy allocator, the scheduler, semaphores, wait queues, RCU, IPC, hash tables and memory pools of the API layer.
- ext2, ext4 directories and hash trees, mprotect, page faults and fork of address spaces.
- Device drivers, TLB flushes, text rendering, liveness and fairness of blocking calls.
