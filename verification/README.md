# Verified models of a Pintos kernel

A Dafny project that models the algorithms and protocols at the centre of this Pintos kernel and proves what they promise.
`dafny verify dfyconfig.toml` checks the whole project.

The modules follow the kernel's parts:

- **File store** (`SectorTree`, `Growth`, `FileStore`, `Bitmap`): a file is a tree of direct, single-indirect and
  double-indirect sectors over a free map. `FileStore.FileSystem` reads and writes it sector by sector and is proved to be a
  growable byte sequence. No sector is shared, and every one in use belongs to a file's tree, to a caller of the free map, or
  was taken by an allocation that failed.
  `Growth` tells how creating and extending a file ends before the first step, whatever the buffer cache holds.
- **Buffer cache** (`CacheLock`, `BufferCache`, `SectorReuse`): the reader/writer lock as a step system over all
  interleavings, the 64-slot cache, one operation at a time, against the logical disk it stands for, and where the file
  store and the cache meet.
- **64-bit division** (`Division64`) built from a 32-bit divide instruction that traps on overflow.
- **Containers** (`ListSort`, `HashTable`, `HeapSort`): the in-place merge sort of an intrusive doubly linked list, the
  chained hash table, heap sort and binary search.
- **Kernel allocator** (`Arenas`, `Malloc`): arenas, free lists and the page bitmap.
- **Virtual memory** (`SwapTable`, `Clock`, `Paging`, `VirtualMemory`): eviction, faults, pins and stores. The main result,
  `Vm.Execute`, says that paging is invisible to any run of loads, stores, pins and stack growth.
- **Threads** (`ThreadState`, `Scheduler`, `Feedback`): scheduler, semaphores and locks over all interleavings, and the
  fixed-point accounting of the feedback scheduler with its 32-bit bounds.
- **ustar headers** (`Octal`, `Ustar`): a printer and a parser that undo each other, with a checksum.

`Options`, `Bytes` and `Lists` hold the few definitions the others share.

## How the models are built

Code that updates fields, lists and arrays is modelled by classes, methods and loops; each method is tied to a function or
relation over values, and what the kernel promises is proved about those. Protocols that run concurrently are step systems:
one step is what runs with interrupts off or inside one atomic primitive, and theorems such as `CacheLock.EveryRunIsSafe`,
`Scheduler.EveryRun` and `Feedback.EveryRun` speak about every run. The methods of `Scheduler.Threads` are proved to take the
steps of those runs (`Scheduler.Does`).

Places where the code does less than it means to are kept, each with the input that shows it and the exact condition:

- `grow_double_indirect` asks for the double-indirect sector again whenever its first index is 0, and the assertion that the
  word is still zero then fails. Growth therefore fails for blocks 5181 to 5307 (and past the tree), whatever is free, and
  over empty sectors for no others; `inode_create` is not affected. `FileStore.GrowPastFirstDouble` is the input. An
  extension over empty sectors fails its assertion if and only if it gets to such a block before the free sectors are used up
  (`Growth.MeetsBarrier`, `Growth.GrowthStops`), and otherwise uses the device up if and only if the new blocks take more
  sectors than are free (`FileSystem.InodeExtend`, `InodeWriteAt`, `WriteMany`).
- `block_clear` writes the device underneath the cache. The logical sector is cleared if and only if no slot caches it with
  other contents (`BufferCache.UnderneathTheCache`); otherwise it goes on showing them. A run of allocations fails an
  assertion if and only if some node, for which and for all before it there are sectors, finds a nonzero word in its parent
  (`Growth.Stops`, `Growth.Outcomes`); the word is that of a parent there before or of what clearing left in the sector the
  parent gets by first fit. For `inode_create` with nothing left in the free sectors that is: the header is still cached with
  a nonzero direct word that the loop gets to (`FileStore.StaleHeader`, `Growth.CreationStops`, `FileSystem.InodeCreate`).
  `SectorReuse.RemoveThenCreate` and `FileStore.SecondWordFails` are inputs. A file made or grown over such sectors shows
  their old bytes (`FileStore.CreatedByte`, `FileStore.GrownByte`); over sectors with no slot it shows zeros
  (`FileStore.CreatedZero`, `FileStore.WrittenZero`). `SectorReuse.ClearUnderneath` ties the file store to the cache here.
- `byte_to_sector` asks the cache for sector 0 where an index sector is missing (`FileStore.AsksForSectorZero`,
  `AsksForSectorZeroBelow`, `EndOfDirectBlocks`). The hit test does not look at the valid flag, so the answer comes out of an
  unused slot as long as there is one; both hold zeros (`SectorReuse.ReadSectorZero`).
- `inode_read_at` looks a position up before comparing it with the length, so a read that runs past the end of the file, or
  starts there, follows index words the file does not reach. It panics if and only if that position lies past the tree or the
  words lead off the device (`FileStore.Strays`, `FileSystem.InodeReadAt`). They cannot where nothing of old contents shows;
  `FileStore.ReadAtEndStrays` is the input where they do.
- The free map has four bits for every sector of the device (`src/filesys/free-map.c:14`), and `free_map_allocate` takes the
  first that is clear. It hands out a sector the device does not have if and only if every sector of the device is marked
  (`FileSystem.FreeMapAllocate`), and `block_clear` panics on that (`Outcome.OffDevice`). A run of allocations that fails no
  assertion ends so if and only if its nodes outnumber the free sectors of the device and a bit past them is clear
  (`Growth.Outcomes`, `Growth.RunFull`, `FileSystem.InodeExtend`, `InodeWriteAt`, `WriteMany`, `InodeCreate`); it reports
  that there is no space if and only if they outnumber them and no bit is clear. Those bits are clear at first, and every
  operation that ends well leaves them as they were, so in place of an error there is always the panic.
  `FileStore.WriteTooMuch` is the input. Where an operation stops, exactly the sectors newly marked belong to no file's
  tree, and all files have their bytes (`FileStore.Lost`).
- `malloc` rounds the size up in 32-bit arithmetic. The block is large enough if and only if the request is below
  0xFFFFFFF5 (`Malloc.PagesForEnough`, `Allocator.Allocate`). `realloc` then copies past the new block exactly when it is
  given such a request, a block of more than 4084 bytes and a free page (`Allocator.Reallocate`,
  `Malloc.ReallocCanOverrun`). `calloc` misses a wrapped product exactly when what is left of it is no smaller than either
  factor (`Malloc.RefusedHasWrapped`, `Malloc.WrapUndetected`), and clears past its block exactly when the product it
  computes passes its test, is 0xFFFFFFF5 or more and a page is free (`Allocator.AllocateZeroed`, `Malloc.CallocCanOverrun`).
- `cache_downgrade` waits for the mutex r with the semaphore's unit in hand, while `cache_read_begin` waits for the unit with
  r in hand; two upgrading threads and a reader that wants to leave can wait for each other in a ring. A set of threads
  cannot get stuck if and only if it has one member where they downgrade, and at most two where they upgrade
  (`CacheLock.ProgressCondition`); `DowngradeCanDeadlock` and `UpgradeCanDeadlock` are the runs.
- `frame_choose_victim` ends, within two rounds, if and only if some frame in the table is neither pinned nor being evicted
  (`Clock.EndsIfEligible`). `VirtualMemory.AllPinned` is the full pool for which it never does. The assertion of
  `swap_put_page` fails if and only if the pool is used up, the frame the clock comes to holds an anonymous page and every
  swap slot is in use (`VirtualMemory.VictimStranded`; `VirtualMemory.StrandedThere` is such a state).
- Signed division is right if and only if it is not INT64_MIN / -1 (`Division64.Sdiv64`). The remainder routines return 32
  bits and are right if and only if the remainder fits, which it does for INT64_MIN % -1 (`Division64.Umod64`, `Smod64`).

## Assumptions

- The file store runs over one logical sector store and is told which sectors have a slot in the cache when they are cleared;
  such a slot is taken to stay until the operation has ended. Sector 0 is reserved and all zero. File offsets and lengths
  stay below 2^31.
- The cache model is for operations run one at a time; an operation that would have to wait returns `MustWait`.
- Comparison and hash functions given to the containers are what their headers ask for: strict weak orders, total
  preorders, and hashes that respect equality.
- In `Malloc` a block's owner writes inside the block only. Headers and free-list links are kept beside the byte array;
  `Arenas.Apart` and `Arenas.InsideArena` show that no block overlaps them. The pool's bytes are numbered below 2^32, as
  `Allocator.Valid` and the constructor say.
- In `Paging` a file changes only through the mapping of a page that writes back, and such a page shares its part of the
  file with no other page. Accessed and dirty bits are kept with the frame the page-table entry maps.
- Thread priorities stay in [0, 63]. A semaphore's value stays below 2^32.
- In `Feedback` nice stays in [-20, 20], although `thread_set_nice` (`src/threads/thread.c:495-498`) stores any int, and no
  more than a given number of threads, at most 545, are ready or running at a tick (`Feedback.Possible`, `MAX_THREADS`).
- Time, memory allocation results and the set of ready threads are parameters.

## Model

| member | source | states |
|---|---|---|
| `Division64.Divl` | src/lib/arithmetic.c:30-40 | DIVL returns the floor quotient; its precondition is the instruction's own no-trap condition (nonzero divisor, quotient below 2^32) |
| `Division64.Nlz` | src/lib/arithmetic.c:44-76 | the count of leading zeros is exactly the shift that brings the top set bit of a nonzero word to bit 31 |
| `Division64.Udiv64` | src/lib/arithmetic.c:80-126 | for all 64-bit n and nonzero d the result is floor(n / d), and every DIVL issued is within range |
| `Division64.DivideLarge` | src/lib/arithmetic.c:113-125 | the shift-divide-correct branch gives floor(n / d) for every divisor of more than 32 bits |
| `Division64.DivideByWord` | src/lib/arithmetic.c:81-112 | the word-at-a-time branch: two chained 64-by-32 quotients put together are the quotient of n by a 32-bit d |
| `Division64.NormalisedDivisor` | src/lib/arithmetic.c:119-122 | dividing n / 2 by the top word of the normalised divisor cannot trap |
| `Division64.EstimateWithinOne` | src/lib/arithmetic.c:119-122 | the shifted estimate is the quotient or one more than it, never anything else |
| `Division64.NoErrorOfTwo` | src/lib/arithmetic.c:113-123 | the inequality behind that: n < 2^64 and a normalised top word leave no room for an error of two |
| `Division64.ChooseQuotient` | src/lib/arithmetic.c:123-123 | the correction step, in wrapping 64-bit arithmetic, picks the quotient from a guess that is right or one too large |
| `Division64.Correct` | src/lib/arithmetic.c:123-123 | the conditional subtraction as code returns the true quotient |
| `Division64.Sdiv64` | src/lib/arithmetic.c:136-141 | signed division truncates toward zero (section 6.5.5 of ISO/IEC 9899:1999) if and only if the operands are not INT64_MIN and -1 |
| `Division64.OnlyOverflow` | src/lib/arithmetic.c:136-141 | the one pair of 64-bit operands whose truncated quotient is not a 64-bit number |
| `Division64.TruncatedByMagnitude` | src/lib/arithmetic.c:136-141 | truncated division is floor division of magnitudes with the sign put back |
| `Division64.Umod64` | src/lib/arithmetic.c:130-132 | the 32-bit result is the remainder modulo 2^32, so the remainder if and only if that is below 2^32 |
| `Division64.Smod64` | src/lib/arithmetic.c:145-147 | the result is the remainder, of the dividend's sign, cut to 32-bit two's complement, so the remainder if and only if that fits; INT64_MIN % -1 is right although its quotient is not |
| `Division64.TruncatedRemainder` | src/lib/arithmetic.c:136-147 | what a truncated quotient leaves is the remainder of the magnitudes with the sign of the dividend |
| `ListSort.ListInsert` | src/lib/kernel/list.c:168-178 | linking an element in before position k of a well-formed chain gives the chain with it at k; no other link changes |
| `ListSort.ListRemove` | src/lib/kernel/list.c:222-255 | removal takes exactly position k out and returns its follower; removing the same element a second time changes nothing |
| `ListSort.CutOut` | src/lib/kernel/list.c:190-197 | the first half of a splice closes the chain over the range and keeps the range linked internally |
| `ListSort.LinkIn` | src/lib/kernel/list.c:199-203 | the second half links a separate range into a chain just before position p |
| `ListSort.ListSplice` | src/lib/kernel/list.c:180-204 | moving a range within one chain gives the sequence with that range moved, still well formed |
| `ListSort.ListSpliceFrom` | src/lib/kernel/list.c:180-204 | moving a range from another chain takes it out of the one and into the other, both still well formed |
| `ListSort.FindEndOfRun` | src/lib/kernel/list.c:352-372 | the returned position ends the longest nondecreasing run from the start |
| `ListSort.InplaceMerge` | src/lib/kernel/list.c:374-399 | two adjacent runs become one run in place; stable, a permutation, and nothing outside the range moves |
| `ListSort.MergeTake` | src/lib/kernel/list.c:390-397 | splicing the smaller element back keeps merged prefix and both remaining runs sorted |
| `ListSort.MergeKeep` | src/lib/kernel/list.c:390-393 | advancing over an element not greater than the other run keeps the merge state |
| `ListSort.MoveBackKeepsOrder` | src/lib/kernel/list.c:376-379 | moving an element back over strictly greater ones never reorders equivalent elements |
| `ListSort.PassStep` | src/lib/kernel/list.c:416-436 | one iteration of a pass uses up two runs of the old chain and leaves one |
| `ListSort.PassEnd` | src/lib/kernel/list.c:410-438 | a pass that output c runs leaves at most c runs and found at least 2c - 1 |
| `ListSort.PassLast` | src/lib/kernel/list.c:423-430 | a pass with a run left over counts it once |
| `ListSort.StableInside` | src/lib/kernel/list.c:401-404 | stability of the whole chain with its sentinels is stability of the list's elements |
| `ListSort.SortedInside` | src/lib/kernel/list.c:401-404 | a chain with no descent between its sentinels is a sorted list |
| `ListSort.List.constructor` | src/lib/kernel/list.c:59-68 | list_init makes an empty well-formed list |
| `ListSort.List.PopFront` | src/lib/kernel/list.c:257-265 | takes the first element off and leaves its own links pointing into the list |
| `ListSort.List.PopFrontThenRemove` | src/vm/frame.c:125-151 | popping the front element and removing it once more, as eviction does, is popping it |
| `ListSort.List.MergeNext` | src/lib/kernel/list.c:421-436 | one turn of a pass merges two runs into one and goes on behind them, or counts the last run |
| `ListSort.List.MergePairs` | src/lib/kernel/list.c:410-438 | one pass turns k runs into at most ceil(k / 2), stably |
| `ListSort.List.Sort` | src/lib/kernel/list.c:401-440 | for any strict weak order list_sort terminates and leaves a well-formed list that is a sorted, stable permutation of the old one |
| `HeapSort.LargestOf` | src/lib/stdlib.c:91-99 | the index picked is that of the largest among an element and its children |
| `HeapSort.SinkStep` | src/lib/stdlib.c:87-109 | one swap of the sift moves the single heap violation one level down |
| `HeapSort.Heapify` | src/lib/stdlib.c:84-109 | floating one element down turns a heap below it into a heap including it, as a permutation of that part |
| `HeapSort.RootIsLargest` | src/lib/stdlib.c:130-134 | a heap's first element is its largest |
| `HeapSort.MoveRoot` | src/lib/stdlib.c:130-134 | swapping the root behind the heap extends the sorted tail by one |
| `HeapSort.TailKept` | src/lib/stdlib.c:130-134 | rearranging the heap part keeps the tail sorted and above it |
| `HeapSort.BuildHeap` | src/lib/stdlib.c:126-128 | the first loop makes the whole array a heap, as a permutation |
| `HeapSort.MoveLargest` | src/lib/stdlib.c:130-134 | one turn of the second loop moves the largest element of the heap to the front of the sorted tail |
| `HeapSort.Sort` | src/lib/stdlib.c:111-135 | the array ends sorted under any total preorder and a permutation of its input |
| `HeapSort.BinarySearch` | src/lib/stdlib.c:153-185 | on a sorted array the result is the index of an equal element, or negative exactly when there is none |
| `HeapSort.SortThenSearch` | src/lib/stdlib.c:111-185 | sorting and then searching finds a match if and only if the original array held one |
| `HashTable.TurnOffIsMinusLowBit` | src/lib/kernel/hash.c:328-333 | x & (x - 1) is x less its lowest set bit |
| `HashTable.PowerOfTwoIsLowBit` | src/lib/kernel/hash.c:335-340 | the bit trick recognises exactly the powers of two |
| `HashTable.MaskIsRemainder` | src/lib/kernel/hash.c:304-310 | masking with a power of two less one is the remainder |
| `HashTable.NextLowBit` | src/lib/kernel/hash.c:368-372 | clearing the lowest bit at least doubles the lowest bit, the reason the rounding loop ends at the top bit |
| `HashTable.OnlyInBucket` | src/lib/kernel/hash.c:304-326 | an element equal to e can only be in the bucket e hashes to |
| `HashTable.PushFront` | src/lib/kernel/hash.c:415-421 | adding an element to its own bucket adds it once to the table and keeps every element in its bucket |
| `HashTable.TakeOut` | src/lib/kernel/hash.c:423-429 | removing a bucket's element takes exactly it out of the table |
| `HashTable.InsertUnique` | src/lib/kernel/hash.c:94-110 | a table without equal elements stays so when an element unlike all others joins |
| `HashTable.DeleteUnique` | src/lib/kernel/hash.c:137-154 | after a deletion nothing equal to the deleted element is left |
| `HashTable.Hash.constructor` | src/lib/kernel/hash.c:24-38 | an empty valid table of four buckets |
| `HashTable.HashInit` | src/lib/kernel/hash.c:24-42 | hash_init gives an empty valid table of four buckets, or fails exactly when the allocation does |
| `HashTable.Hash.FindBucket` | src/lib/kernel/hash.c:304-310 | the bucket index is the hash modulo the bucket count |
| `HashTable.Hash.FindElem` | src/lib/kernel/hash.c:312-326 | finds an equal element of the bucket, or there is none |
| `HashTable.Hash.BucketDecides` | src/lib/kernel/hash.c:304-326 | nothing equal in the right bucket means nothing equal in the table |
| `HashTable.Hash.Find` | src/lib/kernel/hash.c:129-135 | returns an equal element of the table, or there is none |
| `HashTable.Hash.IdealBucketCnt` | src/lib/kernel/hash.c:363-372 | the rounding loop ends at the largest power of two not above max(4, elem_cnt / 2) |
| `HashTable.Hash.MoveAll` | src/lib/kernel/hash.c:394-410 | moving all elements to new buckets loses and duplicates nothing |
| `HashTable.Hash.Rehash` | src/lib/kernel/hash.c:351-413 | the contents are unchanged whether or not the allocation succeeds, and on success the bucket count is the ideal one |
| `HashTable.Hash.InsertElem` | src/lib/kernel/hash.c:415-421 | adds the element and counts it |
| `HashTable.Hash.RemoveElem` | src/lib/kernel/hash.c:423-429 | removes the element and counts it |
| `HashTable.Hash.Insert` | src/lib/kernel/hash.c:94-110 | adds e if nothing equal is there, otherwise returns the equal element and changes nothing; the bucket count follows |
| `HashTable.Hash.Replace` | src/lib/kernel/hash.c:112-127 | e is in the table afterwards in place of the equal element, which is returned |
| `HashTable.Hash.Delete` | src/lib/kernel/hash.c:137-154 | removes and returns the element equal to e, or changes nothing when there is none |
| `HashTable.Iterator.constructor` | src/lib/kernel/hash.c:182-208 | a new iterator has seen nothing |
| `HashTable.Iterator.Next` | src/lib/kernel/hash.c:210-235 | each step sees one more element; the end comes exactly when all have been seen |
| `HashTable.VisitAll` | src/lib/kernel/hash.c:182-235 | a full iteration visits each element of the table exactly once |
| `Bitmaps.FirstGroup` | src/lib/kernel/bitmap.c:289-310 | the first group at or after start, or none exists |
| `Bitmaps.SetRange` | src/lib/kernel/bitmap.c:216-228 | the bits of the range get the value, all others stay |
| `Bitmaps.FlipBack` | src/lib/kernel/bitmap.c:312-326 | taking a group and giving it back restores the bitmap |
| `Bitmaps.WordUpdate` | src/lib/kernel/bitmap.c:155-179 | or-ing or clearing one bit's mask changes the test of that bit and of no other |
| `Bitmaps.Bitmap.constructor` | src/lib/kernel/bitmap.c:76-94 | a new bitmap is all false |
| `Bitmaps.Bitmap.Test` | src/lib/kernel/bitmap.c:196-203 | reads the bit of the sequence the words stand for |
| `Bitmaps.Bitmap.Set` | src/lib/kernel/bitmap.c:141-179 | updates one bit of that sequence and no other |
| `Bitmaps.Bitmap.SetMultiple` | src/lib/kernel/bitmap.c:216-228 | the word array refines SetRange |
| `Bitmaps.Bitmap.Contains` | src/lib/kernel/bitmap.c:248-263 | true exactly when some bit of the range has the value |
| `Bitmaps.Bitmap.Scan` | src/lib/kernel/bitmap.c:289-310 | the word array refines FirstGroup |
| `Bitmaps.Bitmap.ScanAndFlip` | src/lib/kernel/bitmap.c:312-326 | finds the first group and flips exactly it, or changes nothing |
| `SectorTree.SlotsDiffer` | src/filesys/inode.c:70-122 | every node of a file's tree has its own word in its own parent |
| `SectorTree.AttachWord` | src/filesys/inode.c:181-216 | attaching a sector sets its own word, puts what the sector holds below it, and leaves every other word of every file |
| `SectorTree.GrowNode` | src/filesys/inode.c:181-216 | allocating and attaching a sector, whatever it holds, keeps every node's word right, all sectors distinct and marked, and every other file |
| `SectorTree.PlacedTidy` | src/filesys/inode.c:181-216 | over an empty sector the words of absent nodes stay zero |
| `Growth.FirstIsLowest` | src/filesys/free-map.c:22-35 | the list of free sectors is the order in which first fit hands them out |
| `FileStore.FirstOfMap` | src/filesys/free-map.c:12-35 | the bit the scan of the longer map finds is the first free sector of the device, or when it has none the first clear one behind it |
| `Growth.RunExtends` | src/filesys/inode.c:133-216 | whatever stops a run of allocations, it has only extended the one file, over sectors that were free |
| `Growth.RunPlaces` | src/filesys/inode.c:133-216 | after a whole run node i of the order is in the i-th free sector, and no other node is new |
| `Growth.RunFull` | src/filesys/inode.c:133-216 | a run that finds no sector has used every sector of the device up; the map then hands out the first sector past the device with a clear bit, if there is one, and only then does the run end in the panic of the block layer |
| `Growth.RunWord` | src/filesys/inode.c:133-216 | the word a node finds in its parent is the one told from the volume the run starts from |
| `Growth.Outcomes` | src/filesys/inode.c:133-297 | a run fails an assertion if and only if some node told beforehand does; otherwise it finds no sector if and only if the device has fewer free sectors than nodes, and then it panics past the device if and only if the map has a clear bit there |
| `Growth.OrderCost` | src/filesys/inode.c:181-216 | the order of the nodes of blocks c0 to c is as long as their cost in sectors |
| `Growth.CostIsNodes` | src/filesys/inode.c:181-216 | a block costs one sector and those of the index nodes it is the first below |
| `Growth.RunNodes` | src/filesys/inode.c:262-297 | a whole run of that order makes a file of c0 blocks one of c blocks, node for node |
| `Growth.RunTidy` | src/filesys/inode.c:133-216 | over empty sectors a run leaves the words of absent nodes zero |
| `Growth.GrowthStops` | src/filesys/inode.c:203-216 | an extension over empty sectors fails an assertion exactly when it gets to a block out of reach before the free sectors are used up |
| `Growth.HeaderStops` | src/filesys/inode.c:277-283 | a nonzero direct word of the header stops creation, whatever the other sectors hold |
| `Growth.CreationStops` | src/filesys/inode.c:262-297 | over empty sectors nothing else does |
| `FileStore.DataWriteKeepsLayout` | src/filesys/inode.c:514-537 | writing data sectors leaves every tree as it was |
| `FileStore.GrownBytes` | src/filesys/inode.c:447-485 | a byte of a grown file is the old one in a block there was, and what clearing left in a sector that came with the growth |
| `FileStore.GrownZero` | src/filesys/inode.c:447-485 | over empty sectors that is the old bytes and zeros behind them |
| `FileStore.BytesAfterGrowth` | src/filesys/inode.c:447-485 | growth that comes to nothing leaves the file's bytes |
| `FileStore.GrowthAbandoned` | src/filesys/inode.c:444-510 | where a failed extension stops, its new sectors counted as nobody's, the volume is usable and every file has its bytes |
| `FileStore.CreationAbandoned` | src/filesys/inode.c:257-297 | likewise where a failed creation stops, whose header is the caller's again |
| `FileStore.WroteHeaded` | src/filesys/inode.c:490-545 | whatever the new sectors hold, after a write the tree and the header have the right length |
| `FileStore.WroteByte` | src/filesys/inode.c:490-545 | and each byte is that of the buffer or of the grown file |
| `FileStore.WrittenZero` | src/filesys/inode.c:181-216 | a file that grows while no free sector is cached shows zeros in its new blocks wherever the buffer does not reach |
| `FileStore.WriteFinished` | src/filesys/inode.c:490-545 | over empty sectors growth, copying and setting the length together make the file the old bytes with the buffer spliced in |
| `FileStore.WriteBecomes` | src/filesys/inode.c:490-545 | the same for the whole volume: one file changed, every other kept |
| `FileStore.LastWriteWins` | src/filesys/inode.c:408-545 | after any run of writes a byte is the one the last covering write put there, else the old byte, else zero |
| `FileStore.PastTheEnd` | src/filesys/inode.c:490-545 | the file reaches exactly as far as its old end and every write |
| `FileStore.ShowNext` | src/filesys/inode.c:487-545 | one write more on any volume: the last write to a byte wins and bytes of the old file that none covers stay |
| `FileStore.CreateHolds` | src/filesys/inode.c:262-297 | over empty sectors a new file holds zeros |
| `FileStore.CreateHeaded` | src/filesys/inode.c:262-297 | a new file has its length, and its blocks hold what clearing their sectors left |
| `FileStore.CreatedZero` | src/filesys/inode.c:133-178 | a file made while no free sector is cached is all zeros |
| `FileStore.CreateEnds` | src/filesys/inode.c:262-297 | how creation ends, told from the volume it is asked of: over empty sectors it fails an assertion exactly for a header still cached with a nonzero direct word that the loop gets to, otherwise it goes past the device exactly when its nodes outnumber the free sectors; when it ends well the bits past the device are as they were |
| `FileStore.ExtendEnds` | src/filesys/inode.c:444-485 | how an extension over empty sectors ends, in block numbers and counts of free sectors |
| `FileStore.WithinReach` | src/filesys/inode.c:444-485 | with sectors enough for the whole way and no barrier before they are used up, there is none at all |
| `FileStore.FreeEnd` | src/filesys/inode.c:346-380 | when all nodes are freed exactly the file's sectors are free again and the other files are kept, whatever shows of old contents |
| `FileStore.FreeEndGood` | src/filesys/inode.c:346-380 | and a volume on which nothing showed stays one |
| `FileStore.WordTellsPresence` | src/filesys/inode.c:70-122 | where nothing of old contents shows, a node's word is nonzero exactly when the node is there |
| `FileStore.GrowPastFirstDouble` | src/filesys/inode.c:203-216 | a file of 5181 blocks, which can be created, panics when it grows by a block, whatever is free or cached |
| `FileStore.SecondWordFails` | src/filesys/inode.c:277-283 | a cached sector with a zero first and a nonzero second word, two blocks and one free sector: creation gets past the first word and panics at the second |
| `FileStore.WriteTooMuch` | src/filesys/inode.c:444-510 | a write of one block more than there are free sectors to an empty file ends in the panic of the block layer, every sector of the device being marked |
| `FileStore.AsksForSectorZero` | src/filesys/inode.c:96-106 | byte_to_sector reads sector 0 exactly for positions whose single-indirect node the file does not reach |
| `FileStore.AsksForSectorZeroBelow` | src/filesys/inode.c:107-121 | and likewise for the double-indirect node and the index sectors below it |
| `FileStore.EndOfDirectBlocks` | src/filesys/inode.c:96-106 | for instance at the end of a file of 30720 bytes |
| `FileStore.LookedUp` | src/filesys/inode.c:65-122 | looking up a block that is there, or any position where nothing of old contents shows, stays on the device |
| `FileStore.ReadAtEndStrays` | src/filesys/inode.c:405-442 | a file of 60 blocks made in a sector still cached with a word that is no sector number can be created, and a read at its end panics |
| `FileStore.FileSystem.constructor` | src/filesys/free-map.c:13-20 | the map has four bits per sector of the device; the three reserved ones are set and every other is clear |
| `FileStore.FileSystem.FreeMapAllocate` | src/filesys/free-map.c:22-35 | the first clear bit of the map, the device's and those behind it, is set and handed out, and nothing else changes; it is a sector the device does not have exactly when every one it has is marked, and none exactly when no bit is clear; every file stays |
| `FileStore.FileSystem.FreeMapRelease` | src/filesys/free-map.c:37-42 | makes exactly that sector available; every file stays |
| `FileStore.FileSystem.GrowDirect` | src/filesys/inode.c:181-186 | panics exactly when the node's word is nonzero, in a tidy tree exactly when the node is there; otherwise the first free sector, zero if it is not cached, becomes the node, or the device is full |
| `FileStore.FileSystem.GrowIndirect` | src/filesys/inode.c:188-201 | refines the run that adds the data block below its index sector, allocating that one for its first entry |
| `FileStore.FileSystem.GrowDoubleIndirect` | src/filesys/inode.c:203-216 | refines the run of the block's nodes; panics for every block out of reach, and over empty sectors for no other |
| `FileStore.FileSystem.GrowBlock` | src/filesys/inode.c:447-485 | one more block, with the same equivalence; on success the file has exactly the nodes of one block more |
| `FileStore.FileSystem.InodeExtend` | src/filesys/inode.c:444-485 | num more blocks: refines the run of their nodes, so how it ends is told beforehand in every case, and over empty sectors by block numbers and the number of free sectors; past the free sectors it goes off the device exactly when the map has a clear bit there |
| `FileStore.FileSystem.ByteToSector` | src/filesys/inode.c:65-122 | the sector of the block holding the position, 0 when there is no such block and nothing of old contents shows; a panic exactly past the tree or where an index word on the way is no sector |
| `FileStore.FileSystem.ReadPiece` | src/filesys/inode.c:413-439 | one turn of the reading loop gives the file's bytes up to the end of the sector, the file or the request; nothing exactly at or past the end of the file |
| `FileStore.FileSystem.InodeReadAt` | src/filesys/inode.c:405-442 | on any usable volume byte i of the result is byte offset + i of the file; there are min(size, max(0, length - offset)) of them; it panics exactly when it gets to a position past the end of the file that is past the tree or leads off the device |
| `FileStore.FileSystem.WriteChunks` | src/filesys/inode.c:514-537 | the copying loop puts the whole buffer in place, sector by sector |
| `FileStore.FileSystem.Reach` | src/filesys/inode.c:494-510 | the file is extended exactly when the write reaches its end; how that ends is told beforehand, and on success the tree has the blocks the write needs |
| `FileStore.FileSystem.InodeWriteAt` | src/filesys/inode.c:487-545 | how it ends is told beforehand, the panic past the device included; on success the buffer is in place, every other byte is the old one or what clearing left in a new sector, and that is zero if no free sector is cached; over empty or uncached sectors the file is the old one with the buffer spliced in and gaps zero, and the map past the device is as it was; where it fails every file is as it was and exactly the sectors newly marked are in no file's tree, all of the device's being marked when it found none |
| `FileStore.FileSystem.WriteThenRead` | src/filesys/inode.c:405-545 | a write that ends well reads back as the buffer, whatever the sectors the file grew into held before |
| `FileStore.FileSystem.WriteMany` | src/filesys/inode.c:487-545 | after any run of writes on any usable volume the last write to a byte wins and bytes none covers stay; over empty sectors it ends as told beforehand from lengths, the number of free sectors and whether the map has a clear bit past the device, and makes of the file what it makes of a growable byte sequence; other files are kept in every case |
| `FileStore.FileSystem.AllocateDirect` | src/filesys/inode.c:133-142 | panics exactly when the word is nonzero; otherwise one data sector, and the count of bytes left goes down by a sector; the sector is the first free one, zero if it is not cached |
| `FileStore.FileSystem.AllocateIndirect` | src/filesys/inode.c:144-160 | refines the run of the index sector and exactly as many data sectors as are asked for and fit |
| `FileStore.FileSystem.AllocateDoubleIndirect` | src/filesys/inode.c:162-178 | the same one level up |
| `FileStore.FileSystem.AllocateDirects` | src/filesys/inode.c:277-283 | refines the run of the direct blocks in order |
| `FileStore.FileSystem.AllocateSingles` | src/filesys/inode.c:285-290 | refines the run of the blocks below single-indirect nodes in order |
| `FileStore.FileSystem.AllocateBlocks` | src/filesys/inode.c:277-293 | the three phases together refine the run of all nodes the length takes, up to the tree's capacity |
| `FileStore.FileSystem.StartInode` | src/filesys/inode.c:257-294 | the header is cleared and gets length and magic, and the tree is the run of all nodes the length takes, as far as it goes |
| `FileStore.FileSystem.InodeCreate` | src/filesys/inode.c:257-297 | how it ends is told beforehand, stale header and the panic past the device included; on success a file of that length whose bytes are what clearing its sectors left, zeros over empty sectors and whenever no free sector is cached, and the map past the device as it was; with the header uncached as well it fails no assertion; where it fails exactly the sectors newly marked are in no file's tree; every other file kept; a length past the tree's capacity leaves blocks out, and only such a length |
| `FileStore.FileSystem.FreeDirect` | src/filesys/inode.c:218-223 | gives back one data sector |
| `FileStore.FileSystem.FreeIndirect` | src/filesys/inode.c:225-239 | gives back the data sectors below an index sector and that sector |
| `FileStore.FileSystem.FreeDoubleIndirect` | src/filesys/inode.c:241-255 | the same one level up |
| `FileStore.FileSystem.FreeBlocks` | src/filesys/inode.c:362-374 | the phases together free every node of the file but its header |
| `FileStore.FileSystem.Deallocate` | src/filesys/inode.c:357-377 | on any usable volume exactly the sectors of the file's tree become free, and every other file is as it was |
| `FileStore.FileSystem.InodeClose` | src/filesys/inode.c:343-380 | on any usable volume the last close of a removed inode deallocates it; any other close changes nothing on the volume |
| `CacheLock.StepKeepsInv` | src/filesys/cache.c:111-211 | every action of every thread keeps the counts: who holds the mutexes, who is counted in b, and who has the one unit of g |
| `CacheLock.UpgradeKeepsInv` | src/filesys/cache.c:187-202 | the steps of cache_upgrade keep them |
| `CacheLock.DowngradeKeepsInv` | src/filesys/cache.c:204-211 | the steps of cache_downgrade keep them |
| `CacheLock.ReadBeginKeepsInv` | src/filesys/cache.c:110-123 | the steps of cache_read_begin keep them |
| `CacheLock.ReadTryKeepsInv` | src/filesys/cache.c:125-139 | the steps of cache_read_try keep them |
| `CacheLock.WriteBeginKeepsInv` | src/filesys/cache.c:173-179 | the steps of cache_write_begin keep them |
| `CacheLock.WriteTryKeepsInv` | src/filesys/cache.c:181-185 | the step of cache_write_try keeps them |
| `CacheLock.WriteEndKeepsInv` | src/filesys/cache.c:419-427 | the step of cache_write_end keeps them |
| `CacheLock.ReadEndKeepsInv` | src/filesys/cache.c:407-417 | the steps of cache_read_end keep them |
| `CacheLock.InvIsSafe` | src/filesys/cache.c:111-211 | those counts imply mutual exclusion, g at most 1, b not negative and the assertion of cache_downgrade |
| `CacheLock.EveryRunIsSafe` | src/filesys/cache.c:111-211 | in every interleaving of any number of threads there is never a writer with a reader or a second writer, and no assertion fires |
| `CacheLock.EveryStart` | src/filesys/cache.c:110-211 | between operations a thread can start each one its lock allows |
| `CacheLock.OperationEnds` | src/filesys/cache.c:110-211 | in every run the first place of rest after the start of cache_upgrade or cache_write_begin is the writer's, after that of cache_read_begin or cache_downgrade a reader's, and after that of cache_read_end nobody's |
| `CacheLock.ReadTryEnds` | src/filesys/cache.c:125-139 | in every run cache_read_try ends with the read lock if and only if r was free when it tried and other readers were counted then or its own try of the semaphore found the unit; otherwise it ends with nothing |
| `CacheLock.WriteTryEnds` | src/filesys/cache.c:181-185 | cache_write_try has the write lock exactly when the unit was free, and changes nothing else |
| `CacheLock.WriteEndEnds` | src/filesys/cache.c:419-427 | cache_write_end leaves the unit free and the thread with nothing |
| `CacheLock.StuckIsStandstill` | src/filesys/cache.c:111-211 | no thread can move if and only if every thread waits for a mutex or the semaphore, with both mutexes and the unit taken |
| `CacheLock.WhoStandsStill` | src/filesys/cache.c:187-211 | every standstill has a downgrading thread beside another, or an upgrading one beside two others |
| `CacheLock.HarmlessNeverStuck` | src/filesys/cache.c:111-211 | no run without those is ever stuck |
| `CacheLock.UpgradeCanDeadlock` | src/filesys/cache.c:187-202 | with upgrades among three or more threads there is a run that ends stuck |
| `CacheLock.ProgressCondition` | src/filesys/cache.c:111-211 | given a set of threads and whether they upgrade and downgrade: no run ends stuck if and only if there is at most one thread where they downgrade, and at most two where they upgrade |
| `CacheLock.DowngradeCanDeadlock` | src/filesys/cache.c:204-211 | with downgrades among two or more threads there is a run that ends stuck |
| `BufferCache.Retouch` | src/filesys/cache.c:332-350 | changing only locks, dirty bits and access records leaves the logical disk |
| `BufferCache.WriteBackKeeps` | src/filesys/cache.c:332-350 | writing a slot back leaves the logical disk |
| `BufferCache.StoreKeeps` | src/filesys/cache.c:421-427 | new data in a write-locked slot is new data of that sector of the logical disk only |
| `BufferCache.ImportKeeps` | src/filesys/cache.c:242-268 | importing an uncached sector into a free or evicted slot leaves the logical disk and caches nothing twice |
| `BufferCache.UnderneathTheCache` | src/devices/block.c:119-125 | a write to the device underneath the cache becomes the logical sector's contents if and only if every slot caching it holds them already |
| `BufferCache.ClearedIfUncached` | src/filesys/inode.c:133-142 | so block_clear clears a sector that is not cached, and does not clear one cached with anything else |
| `BufferCache.SmallerIsOlder` | src/filesys/cache.c:295-312 | a smaller access record means a latest access in an older pass |
| `BufferCache.Cache.constructor` | src/filesys/cache.c:67-91 | an empty cache stands for its device |
| `BufferCache.Cache.Evict` | src/filesys/cache.c:282-325 | of the unlocked slots the last one with the least record comes back write-locked with its data on the device; the others come back dirty; fails exactly when all are locked |
| `BufferCache.Cache.LockOldest` | src/filesys/cache.c:288-312 | its loop: the victim, the last with the least record, is locked, the other unlocked slots end marked dirty |
| `BufferCache.Cache.ReadBegin` | src/filesys/cache.c:110-123 | takes a read lock on the slot and changes nothing else, or has to wait exactly when somebody is writing it |
| `BufferCache.Cache.ReadEnd` | src/filesys/cache.c:407-417 | gives the read lock back and changes nothing else |
| `BufferCache.Cache.Upgrade` | src/filesys/cache.c:187-202 | a reader becomes the writer, or has to wait exactly when it is not the only one |
| `BufferCache.Cache.Store` | src/filesys/cache.c:157-171 | a write-locked slot's new data is the sector's new data on the logical disk |
| `BufferCache.Cache.WriteEnd` | src/filesys/cache.c:419-427 | the lock is released, the slot dirty, the logical disk unchanged |
| `BufferCache.Cache.WriteBack` | src/filesys/cache.c:337-349 | the slot's data reaches the device and the logical disk stays |
| `BufferCache.Cache.Refresh` | src/filesys/cache.c:327-350 | the logical disk and all locks stay, and every valid slot nobody is writing is clean |
| `BufferCache.Cache.UpdateAccesses` | src/filesys/cache.c:367-405 | one pass shifts the record of each valid slot nobody is writing, puts the access bit on top and clears it; every other slot stays |
| `BufferCache.Cache.PassThenEvict` | src/filesys/cache.c:276-405 | after a full pass with nothing locked the victim is one whose latest access is in the oldest pass, and it alone is left locked |
| `BufferCache.Cache.Search` | src/filesys/cache.c:231-240 | finds the first slot with the sector's number, which is the one caching it, if any; for sector 0 it finds an unused slot instead, exactly as long as there is one |
| `BufferCache.Cache.TakeUnused` | src/filesys/cache.c:243-252 | finds and write-locks the first unlocked unused slot, if any; the unlocked slots it passed over are dirty, the others as they were |
| `BufferCache.Cache.Import` | src/filesys/cache.c:259-268 | the block is in the slot, clean, read-locked once and marked as just accessed, the logical disk unchanged |
| `BufferCache.Cache.LoadBlock` | src/filesys/cache.c:242-268 | the miss branch by itself |
| `BufferCache.Cache.FindBlock` | src/filesys/cache.c:213-280 | on a hit the first slot with the number is read-locked once more and marked as just accessed, and nothing else changes; on a miss the first unlocked unused slot, or else the last unlocked one with the least record, whose data goes to the device, takes the sector in with the logical disk's data, and the other slots are told one by one; the cache is full exactly when the sector is not cached and every slot is locked, the caller waits exactly when it is being written, and sector 0 comes out of an unused slot as long as there is one |
| `BufferCache.Cache.ReadSector` | src/filesys/cache.c:94-108 | a read through the cache gives the logical disk's data, with the same three exceptions |
| `BufferCache.Cache.WriteSector` | src/filesys/cache.c:157-171 | a write through the cache changes that sector of the logical disk and no other, and otherwise says whether the cache is full or somebody holds the slot |
| `SectorReuse.RemoveThenCreate` | src/filesys/inode.c:257-380 | removing a file and making another in its sector fails an assertion if the header's slot is still there |
| `SectorReuse.ReadSectorZero` | src/filesys/inode.c:96-121 | the words byte_to_sector reads out of sector 0 are zero |
| `SectorReuse.ClearUnderneath` | src/devices/block.c:119-125 | what the file store takes clearing to do is what block_clear does underneath the cache: a sector with a slot shows what the slot holds, any other is zero |
| `Arenas.BlockFits` | src/threads/malloc.c:74-82 | block idx of an arena ends within its page |
| `Arenas.ArenaHoldsMost` | src/threads/malloc.c:70-82 | an arena is divided into as many blocks as fit behind its header, and no fewer |
| `Arenas.BlockAligned` | src/threads/malloc.c:253-256 | the alignment block_to_arena asserts holds for every block |
| `Arenas.InsideArena` | src/threads/malloc.c:168-175 | a block lies behind its arena's header and within its pages |
| `Arenas.Apart` | src/threads/malloc.c:84-147 | blocks, live or free, never overlap |
| `Arenas.AllFreed` | src/threads/malloc.c:202-243 | once no block is live the page bitmap is what it was before the first allocation and no arena is left |
| `Arenas.NewArenaKeeps` | src/threads/malloc.c:120-139 | a new arena keeps the allocator consistent, with that arena wholly free |
| `Arenas.NewBigKeeps` | src/threads/malloc.c:102-116 | a big block of fresh pages keeps it consistent |
| `Arenas.PopKeeps` | src/threads/malloc.c:141-146 | handing out the first free block keeps free_cnt the number of free blocks, and below blocks_per_arena |
| `Arenas.PushKeeps` | src/threads/malloc.c:220-224 | putting a block back keeps free_cnt exact |
| `Arenas.WhollyFree` | src/threads/malloc.c:223-231 | an arena with free_cnt equal to blocks_per_arena has all blocks on the free list and none live |
| `Arenas.DropArenaKeeps` | src/threads/malloc.c:223-233 | giving such an arena back keeps the allocator consistent |
| `Arenas.DropBigKeeps` | src/threads/malloc.c:237-241 | giving a big block's pages back keeps it consistent |
| `Malloc.PagesForEnough` | src/threads/malloc.c:102-108 | in 32-bit arithmetic a large request gets enough pages and not a page more than it needs, none (exactly 0xFFFFEFF5 to 0xFFFFFFF4), or, from 0xFFFFFFF5 on, one |
| `Malloc.SmallDenied` | src/threads/malloc.c:118-147 | a small request fails exactly when the free list of its one descriptor is empty and no page is free |
| `Malloc.BigDenied` | src/threads/malloc.c:102-116 | a large one exactly when no group of that many pages is free |
| `Malloc.WrappedDenied` | src/threads/malloc.c:102-116 | one whose page count wraps to one exactly when no page is free |
| `Malloc.LargestRequestGetsOnePage` | src/threads/malloc.c:102-108 | the concrete request for which the returned block is too small |
| `Malloc.RefusedHasWrapped` | src/threads/malloc.c:155-158 | what calloc's test refuses has wrapped, and a wrapped product passes exactly when what is left of it is no smaller than either factor |
| `Malloc.WrapUndetected` | src/threads/malloc.c:155-158 | 65537 elements of 65537 bytes pass it |
| `Malloc.Allocator.constructor` | src/threads/malloc.c:70-82 | seven descriptors of 16 to 1024 bytes with empty free lists |
| `Malloc.Allocator.FindDesc` | src/threads/malloc.c:95-100 | the smallest descriptor that holds the request |
| `Malloc.Allocator.Allocate` | src/threads/malloc.c:84-147 | a block not live before, of exactly the size of the smallest descriptor that holds the request or of the pages a large one takes, and so large enough if and only if the request is below 0xFFFFFFF5; it is the first of that descriptor's free list or of a new arena in the first free page, or starts the first group of pages free; all other live blocks keep their bytes; it fails exactly for size 0, for a small request with an empty free list and no free page, and for a large one when no group of that many pages is free or the count wraps to zero |
| `Malloc.Allocator.AllocateBig` | src/threads/malloc.c:102-116 | the first group of free pages that is large enough, or exactly when there is none nothing |
| `Malloc.Allocator.OpenArena` | src/threads/malloc.c:120-139 | the first free page becomes an arena whose blocks are on the free list in the order of their addresses, or exactly when no page is free nothing changes |
| `Malloc.Allocator.TakeFirst` | src/threads/malloc.c:141-146 | the first free block is handed out |
| `Malloc.Allocator.AllocateSmall` | src/threads/malloc.c:118-147 | the first block of the descriptor's free list, no page being taken, or the first of a new arena in the first free page, and no other change; none exactly when the list is empty and no page is free |
| `Malloc.Allocator.PutBack` | src/threads/malloc.c:210-224 | the block is at the front of its free list, its arena counts one more free, the other live blocks keep their bytes |
| `Malloc.Allocator.CloseArena` | src/threads/malloc.c:223-233 | an arena without live blocks leaves the free list, which keeps the blocks of other pages in order, and its page, overwritten, is returned |
| `Malloc.Allocator.FreeBig` | src/threads/malloc.c:237-241 | a big block's pages, and no others, are returned |
| `Malloc.Allocator.Free` | src/threads/malloc.c:202-243 | the block is no longer live and all other live blocks keep their bytes; it goes to the front of its free list, or with the last of its arena that arena's page goes back, or a big block's pages do |
| `Malloc.Allocator.BlockSize` | src/threads/malloc.c:168-175 | the number of bytes the block holds |
| `Malloc.Allocator.CopyInto` | src/threads/malloc.c:192-195 | the common prefix is copied and no other block changes, or the copy would leave the new block |
| `Malloc.Allocator.Reallocate` | src/threads/malloc.c:177-200 | the new block, of the size malloc gives, starts with the common prefix of the old one, which is freed; it fails, changing nothing, exactly when malloc does; the copy leaves the new block exactly for a request of 0xFFFFFFF5 bytes or more, an old block of more than 4084 bytes and a free page |
| `Malloc.Allocator.AllocateZeroed` | src/threads/malloc.c:149-166 | fails exactly when its test refuses or malloc fails on the 32-bit product; the block holds a * b bytes if and only if that is below 0xFFFFFFF5, the product's worth of bytes is zero and the other live blocks keep theirs; clearing leaves the block exactly when the product passes the test, is 0xFFFFFFF5 or more and a page is free |
| `Malloc.FreeThenAllocate` | src/threads/malloc.c:84-243 | a small block freed while others of its arena are in use is what the next request of its size gets, and the heap is then exactly as it was |
| `Malloc.ReallocCanOverrun` | src/threads/malloc.c:177-200 | in a pool of three pages a block of 5000 bytes and a request for 2^32 - 1 make the copy leave the block |
| `Malloc.CallocCanOverrun` | src/threads/malloc.c:149-166 | in a pool of one page one element of 2^32 - 1 bytes makes clearing leave the block |
| `SwapTable.SlotsApart` | src/vm/swap.c:39-45 | writing one slot's sectors leaves the page in every other slot |
| `SwapTable.Swap.constructor` | src/vm/swap.c:47-68 | one free slot per page of the device |
| `SwapTable.Swap.FindEmpty` | src/vm/swap.c:70-93 | the first free slot, marked, or all are in use |
| `SwapTable.Swap.Put` | src/vm/swap.c:137-159 | the page is in a slot that was free, and every other slot holds what it held; the slot is the first free one |
| `SwapTable.Swap.Retrieve` | src/vm/swap.c:109-135 | gives exactly the page of the slot and frees the slot |
| `Lists.RemoveCuts` | src/lib/kernel/list.c:222-255 | taking an element off a list leaves the others in order |
| `Clock.TurnOne` | src/vm/frame.c:132-146 | a rejected frame has its accessed bits cleared and goes to the back |
| `Clock.Choice` | src/vm/frame.c:146-151 | the frame returned is the first eligible one not accessed, or the first eligible one when all were |
| `Clock.ChosenOnBits` | src/vm/frame.c:132-151 | the same on the two accessed bits themselves: in the first round the frame returned had neither, in the second every eligible frame had one; each frame passed over lost both and nothing else changed |
| `Clock.TwoRounds` | src/vm/frame.c:132-151 | with an eligible frame in the table two full rounds cannot pass |
| `Clock.OneTurn` | src/vm/frame.c:132-151 | what either branch of the loop leaves |
| `Clock.NeverAccepts` | src/vm/frame.c:132-151 | without an eligible frame every turn, however many there have been, rejects the front frame and changes accessed bits only |
| `Clock.EndsIfEligible` | src/vm/frame.c:125-151 | the search ends if and only if an eligible frame is in the table, and then within two rounds |
| `Clock.AllPinnedNeverEnds` | src/vm/frame.c:125-151 | with every frame pinned it never ends |
| `Paging.Bijection` | src/vm/frame.h:7-15 | frames and resident pages match one to one, each frame is in the table once, and two swapped-out pages have different slots |
| `Paging.SlotInUse` | src/vm/swap.c:70-159 | a swap slot is in use exactly when a swapped-out page holds it |
| `Paging.SlotCount` | src/vm/swap.c:70-93 | as many slots are in use as pages are swapped out, and the device is full exactly when there are as many of them as slots |
| `Paging.EvictFileKeeps` | src/vm/frame.c:157-192 | evicting a file page keeps every page's bytes, the frame and page bijection and the slots |
| `Paging.EvictSwapKeeps` | src/vm/frame.c:157-192 | evicting an anonymous page keeps them too, and no two swapped-out pages share a slot |
| `Paging.WriteBackLocal` | src/vm/frame.c:170-178 | writing a dirty page back changes no other mapped bytes of the file |
| `Paging.WriteBackHere` | src/vm/frame.c:170-178 | after it the page's own part of the file is what was in the frame |
| `Paging.FilledKeeps` | src/vm/page.c:118-154 | loading a page into a new frame keeps everything else |
| `Paging.BitsKeep` | src/vm/frame.c:138-146 | changing accessed bits, pins or the order of the table changes no page |
| `Paging.StoredKeeps` | src/vm/frame.c:157-192 | a store by the processor changes that byte of that page only, and marks it dirty |
| `VirtualMemory.Vm.ChooseVictim` | src/vm/frame.c:125-151 | given an eligible frame, returns after at most two rounds the first unpinned, not evicting frame with neither the kernel nor the user accessed bit set or, if each such frame has one, the first of them; the frames passed over lose both bits, every other frame stays in the table exactly once, in rotated order |
| `VirtualMemory.Vm.FrameEvict` | src/vm/frame.c:153-192 | every page reads as before; exactly this frame leaves pool and table, its page alone loses residence, an anonymous one to the first free slot, a file page with its dirty bytes and no others written back; fails, changing nothing, exactly when the page is anonymous and as many pages are swapped out as there are slots |
| `VirtualMemory.Vm.GetPage` | src/vm/frame.c:58-69 | the first free page of the user pool, zeroed |
| `VirtualMemory.Vm.GetFrame` | src/vm/frame.c:50-89 | a zeroed frame: the first free page of the pool, and then nobody is evicted and nothing else changes, or, when there is none, that of the page the clock comes to, which alone is evicted; every page reads as before and no pin changes; there is none exactly when the pool is used up and nothing can be evicted, and the swap assertion fails exactly when the pool is used up, the frame the clock comes to holds an anonymous page and every slot is in use |
| `VirtualMemory.ChosenOnce` | src/vm/frame.c:125-151 | the clock rule picks one frame only |
| `VirtualMemory.StrandedIf` | src/vm/frame.c:125-192 | with the pool used up the swap assertion fails exactly when the frame picked holds an anonymous page and the device is full |
| `VirtualMemory.StrandedThere` | src/vm/swap.c:137-159 | a consistent state, of one frame and one slot, in which the swap assertion fails when a frame is needed |
| `VirtualMemory.FrameThere` | src/vm/frame.c:125-151 | with the pool used up a frame can be had exactly when victim choice ends |
| `VirtualMemory.AllPinned` | src/vm/frame.c:125-151 | a full pool with every frame pinned: no frame, and victim choice never ends |
| `VirtualMemory.FromFile` | src/vm/page.c:127-141 | loading a file page, and turning a writable page of the own executable anonymous, changes no page's bytes |
| `VirtualMemory.FromSwap` | src/vm/page.c:142-144 | loading a page from its slot changes no page's bytes |
| `VirtualMemory.Vm.Fault` | src/vm/page.c:109-154 | the page is resident in a frame got that way, at the back of the table, every page reads as before and no other pin changes; or no frame is to be had, or the swap assertion fails, each under the same exact condition as for a frame |
| `VirtualMemory.Vm.GrowStack` | src/userprog/exception.c:181-192 | a new anonymous page reads as zeros and no other page or pin changes; it fails under the same exact conditions; its frame is got the same way |
| `VirtualMemory.Vm.CreateFilesysPage` | src/vm/page.c:185-215 | the new page reads as its part of the file and no other page changes |
| `VirtualMemory.Vm.PinPage` | src/vm/page.c:244-257 | a resident page has one more pin and nothing else changes, any other is faulted in with one; no page's bytes and no other pin change; it fails under the same exact conditions, and only if the page was not there |
| `VirtualMemory.Vm.UnpinPage` | src/vm/page.c:259-267 | one pin fewer and nothing else changes |
| `VirtualMemory.Vm.Touch` | src/userprog/exception.c:145-158 | an access finds the page resident, with nothing changed or after a fault, or fails under the same exact conditions |
| `VirtualMemory.Vm.Step` | src/vm/page.c:109-154 | one such command does what it would do in a memory without paging, and to frames, slots and files no more than its fault, its accessed and dirty bits or its pin; or it fails exactly when it needs a frame and none is to be had or the swap assertion fails |
| `VirtualMemory.Vm.Execute` | src/vm/frame.c:157-192 | any run of loads, stores, pins, unpins and stack growth, with all the faults and evictions they cause, loads the bytes and leaves the pages and pins a memory without paging would; it stops early only at a command that needs a frame, exactly when none is to be had or the victim is stranded |
| `VirtualMemory.LastStoreWins` | src/vm/frame.c:157-192 | after any run a byte reads as the value last stored to it, whatever was evicted and loaded meanwhile |
| `VirtualMemory.NeverStored` | src/vm/page.c:118-154 | a byte nothing was stored to reads as it did at the start, and as zero in a page grown since |
| `VirtualMemory.LoadGivesLastStore` | src/vm/frame.c:157-192 | so a load gives the value of the last store to the byte it names |
| `ThreadState.ListsDisjoint` | src/threads/thread.c:123-129 | the ready, sleeping and wait lists have no thread in common |
| `ThreadState.NoLostWakeup` | src/threads/synch.c:63-121 | if anyone waits while the value is positive, a woken thread is ready or running and has yet to test the value |
| `ThreadState.MutualExclusion` | src/threads/synch.c:184-254 | at most one thread is between acquiring and releasing a lock |
| `ThreadState.BestIsFirstMaximum` | src/threads/thread.c:87-110 | the position picked is the first of maximal priority |
| `ThreadState.BestIsFirstHighest` | src/threads/thread.c:87-110 | nobody on the list has a higher priority than the thread picked, and nobody before it the same |
| `ThreadState.DispatchedRuns` | src/threads/thread.c:632-640 | the thread that runs next is that one, and the ready list is the rest in the same order; idle when the list is empty |
| `ThreadState.DispatchedKeeps` | src/threads/thread.c:632-706 | switching to the picked thread keeps all lists and statuses right |
| `ThreadState.BlockedKeeps` | src/threads/thread.c:312-319 | so does blocking |
| `ThreadState.YieldedKeeps` | src/threads/thread.c:402-414 | so does yielding, idle staying off the ready list |
| `ThreadState.AsleepKeeps` | src/devices/timer.c:83-95 | so does going to sleep |
| `ThreadState.ExitedKeeps` | src/threads/thread.c:383-398 | so does exiting |
| `ThreadState.UnblockedKeeps` | src/threads/thread.c:328-352 | so does unblocking |
| `ThreadState.AwokenKeeps` | src/threads/thread.c:162-175 | so does waking a sleeper |
| `ThreadState.CreatedKeeps` | src/threads/thread.c:260-298 | so does creating a thread |
| `ThreadState.ReprioritisedKeeps` | src/threads/thread.c:440-446 | so does any change of priority within its range |
| `ThreadState.WaitingKeeps` | src/threads/synch.c:69-73 | so does waiting in sema_down |
| `ThreadState.TakenKeeps` | src/threads/synch.c:70-76 | so does taking the value; a lock's semaphore gets its one owner |
| `ThreadState.TryTakenKeeps` | src/threads/synch.c:89-100 | so does a successful try |
| `ThreadState.RaisedKeeps` | src/threads/synch.c:106-121 | so does an up with nobody waiting |
| `ThreadState.RaisedWakingKeeps` | src/threads/synch.c:106-121 | so does an up that wakes the first waiter of maximal priority |
| `ThreadState.SetHolderKeeps` | src/threads/synch.c:196-198 | so does setting and clearing the holder of a lock |
| `Scheduler.StepKeeps` | src/threads/thread.c:312-414 | every enabled step keeps the whole invariant |
| `Scheduler.EveryRun` | src/threads/synch.c:63-254 | in every run of any length of the steps the methods of `Threads` are proved to take: a non-idle thread is READY iff on the ready list once, lists are disjoint, value = initial + ups - downs, no wakeup is lost, locks exclude |
| `Scheduler.EveryRunMeans` | src/threads/thread.c:123-414 | the same on the fields: READY exactly on the ready list, once; RUNNING exactly the current thread; while anyone waits at least `value` woken threads have yet to test it |
| `Scheduler.ValueOfRun` | src/threads/synch.c:56-121 | at every point of every run a semaphore's value is its first one plus the up steps less the down steps that got through, counted over the run itself |
| `Scheduler.OneInside` | src/threads/synch.c:184-254 | at every point of every run from a free lock at most one thread has got through a down of it and not come to an up since, and while one has the value is 0 |
| `Scheduler.YieldRotates` | src/threads/thread.c:400-414 | among threads of one priority a yield takes the running thread to the back and runs the front of the ready list |
| `Scheduler.RoundRobin` | src/threads/thread.c:400-414 | threads of one priority that only yield take turns: after q full rounds and m yields more, for every q and m, the order has gone round by m |
| `Scheduler.SleepersSplit` | src/threads/thread.c:159-176 | a tick splits the sleeping list into those who wake and those who stay, none lost or doubled |
| `Scheduler.DueInOrder` | src/threads/thread.c:162-175 | those who wake do so in the order of the sleeping list |
| `Scheduler.LateInOrder` | src/threads/thread.c:162-175 | those who stay keep their order |
| `Scheduler.Threads.constructor` | src/threads/thread.c:123-156 | the state after thread_start satisfies the invariant |
| `Scheduler.Threads.HighestPriority` | src/threads/thread.c:87-110 | the loop finds the position nobody has a higher priority than and nobody before has the same, or the list is empty |
| `Scheduler.Threads.Schedule` | src/threads/thread.c:628-706 | the thread that runs was on the ready list, nobody on it has a higher priority and nobody before it the same; the ready list is the rest in order; idle runs exactly when the list is empty; nothing else changes |
| `Scheduler.Threads.Block` | src/threads/thread.c:307-319 | the current thread is blocked and the first of the highest priority on the ready list runs; no other thread changes; it is the step of that kind in a run |
| `Scheduler.Threads.Yield` | src/threads/thread.c:400-414 | the current thread, unless it is idle, goes to the back of the ready list, and the first of the highest priority on it then runs; it is the step of that kind in a run |
| `Scheduler.Threads.Sleep` | src/devices/timer.c:83-95 | the current thread is at the back of the sleeping list, blocked, with wake time start + ticks, and the first of the highest priority runs; it is the step of that kind in a run |
| `Scheduler.Threads.Exit` | src/threads/thread.c:381-398 | the current thread is gone, the first of the highest priority runs and no other thread changes; it is the step of that kind in a run |
| `Scheduler.Threads.Unblock` | src/threads/thread.c:321-352 | a blocked thread becomes ready at the back of the list; it is the step of that kind in a run |
| `Scheduler.Threads.Create` | src/threads/thread.c:260-298 | a new thread is ready at the back of the list; it is the step of that kind in a run |
| `Scheduler.Threads.SetPriority` | src/threads/thread.c:440-446 | one priority changes and nothing else; it is the step of that kind in a run |
| `Scheduler.Threads.Wake` | src/threads/thread.c:170-174 | the sleeper leaves its list for the back of the ready list with its wake time cleared, which is the waking step of a run |
| `Scheduler.Threads.Tick` | src/threads/thread.c:159-176 | exactly the sleepers whose time has come become ready, at the back of the list and in order; afterwards no sleeper's wake time is past and none woke early; it is a run of waking steps |
| `Scheduler.Threads.NewSemaphore` | src/threads/synch.c:49-54 | a new semaphore or lock with nobody waiting |
| `Scheduler.Threads.SemaDown` | src/threads/synch.c:56-76 | one turn of the loop takes one off the value, or puts the thread at the back of the wait list, blocked, and runs the first of the highest priority; it is the step of that kind in a run |
| `Scheduler.Threads.SemaTryDown` | src/threads/synch.c:78-100 | takes one off the value if and only if it is positive, and changes nothing else; it is the step of that kind in a run |
| `Scheduler.Threads.SemaUp` | src/threads/synch.c:102-121 | raises the value by one; of those waiting the first of the highest priority leaves for the back of the ready list; it is the step of that kind in a run |
| `Scheduler.Threads.BecomeHolder` | src/threads/synch.c:184-198 | the thread that got through is the only owner and becomes the holder; it is the step of that kind in a run |
| `Scheduler.Threads.LockRelease` | src/threads/synch.c:220-254 | the holder was the only owner; the lock is free afterwards and the first waiter of the highest priority is ready; it is two steps of a run |
| `Feedback.RoundIsNearest` | src/threads/fixed_point.c:17-20 | round_fp gives a nearest integer, for every value |
| `Feedback.RoundOfInteger` | src/threads/fixed_point.c:9-20 | round_fp undoes to_fp on every integer of 18 bits |
| `Feedback.PriorityIsPrice` | src/threads/thread.c:183-193 | the priority is 63 less a quarter of recent_cpu, rounded to the nearest integer, and twice nice, held within [0, 63] |
| `Feedback.DecayedIsDecay` | src/threads/thread.c:518-524 | within bounds one decay is recent_cpu times 2 load / (2 load + 1), each quotient truncated once, plus nice, without wrapping |
| `Feedback.LoadStays` | src/threads/thread.c:529-533 | load_avg stays in [0, n] when at most n threads are ready or running, and does not wrap |
| `Feedback.CoefficientBound` | src/threads/thread.c:521-523 | the decay coefficient is at most 2n / (2n + 1) |
| `Feedback.RecentStays` | src/threads/thread.c:518-524 | one second's decay brings recent_cpu back within its bounds without wrapping |
| `Feedback.MaxThreadsIsLargest` | src/threads/fixed_point.c:1-4 | 545 is the largest n for which 120 (2n + 1) fits a 17.14 number |
| `Feedback.TickedWithin` | src/threads/thread.c:210-229 | a whole tick keeps every value within bounds |
| `Feedback.TickedAdvances` | src/threads/thread.c:197-229 | a whole tick is the recurrences in exact integers: what moves at a multiple of 100, at a multiple of 4 and at any tick, and nothing else |
| `Feedback.RunWithin` | src/threads/thread.c:210-229 | so does every run of ticks, switches, creations, exits and nice changes |
| `Feedback.EveryRun` | src/threads/thread.c:183-229 | at every point of every run load_avg is in [0, n], recent_cpu in [-20 (2n + 1), 120 (2n + 1)], both below 2^31 in fixed point for n up to 545, and priorities in [0, 63] |
| `Feedback.EveryTick` | src/threads/thread.c:197-229 | the same of every tick of every run from boot |
| `Feedback.EveryEvent` | src/threads/thread.c:183-229 | every event of every run on the fields: a tick as told, a new nice value and the price it makes, a new account at zero, one account fewer, another thread running, and nothing else |
| `Feedback.PriorityFollows` | src/threads/thread.c:183-193 | within [0, 63] the priority is 63 - recent_cpu / 4 - 2 nice, rounded; more processor use or more nice never raises it |
| `Feedback.PriorityFor` | src/threads/thread.c:183-193 | the priority is clamped to [0, 63] |
| `Feedback.Accounting.constructor` | src/threads/thread.c:123-141 | accounts start at zero |
| `Feedback.Accounting.UpdateRecentCpu` | src/threads/thread.c:416-428 | the loop over all threads decays each recent_cpu exactly once |
| `Feedback.Accounting.UpdatePriorities` | src/threads/thread.c:183-193 | the loop recomputes each priority but idle's |
| `Feedback.Accounting.Tick` | src/threads/thread.c:197-229 | on the fields: at a multiple of 100 load_avg is 59/60 of the old one plus 1/60 of the threads ready or running, in the exact integers of the format, and each recent_cpu has decayed by it; at a multiple of 4 each priority but idle's is 63 - recent_cpu / 4 - 2 nice, rounded and clamped; only the running thread is charged and at other ticks nothing else changes |
| `Octal.FormatInteger` | src/lib/stdio.c:466-540 | the output is a numeral without leading zeros that stands for the value, padded in front to the width and no further |
| `Octal.AccumulateDigits` | src/lib/stdio.c:495-516 | the loop leaves the digits in reverse order and never overruns its 64-byte buffer |
| `Octal.PutDigits` | src/lib/stdio.c:536-537 | the last loop puts the digits out in the right order |
| `Octal.RenderedZeroPadded` | src/lib/stdio.c:520-537 | zero padding to a wide enough field is the fixed-width digits |
| `Octal.DigitsMean` | src/lib/stdio.c:495-516 | the digits, read as a number, give the value back, and each is a digit of the base |
| `Octal.OneOctal` | src/lib/ustar.c:92-97 | a number has one string of octal digits of a given length, so a field's bytes are told by its number |
| `Octal.RenderedMeans` | src/lib/stdio.c:520-537 | what is rendered is that numeral and the padding |
| `Octal.ParseOctalField` | src/lib/ustar.c:110-146 | reads octal digits ended by a space or null byte as the number they stand for; fails exactly when there is no such digit string or the number exceeds 32 bits |
| `Octal.ParseFieldMeans` | src/lib/ustar.c:119-146 | the same of the function behind it |
| `Octal.DigitsRead` | src/lib/ustar.c:119-146 | reading rendered digits gives the number back |
| `Octal.FieldRoundTrip` | src/lib/ustar.c:119-146 | a rendered, null-terminated field parses to the number rendered |
| `Ustar.StripAntisocialPrefixes` | src/lib/ustar.c:51-66 | the result is the name behind all its leading "/", "./" and "../", or "." where that is empty or ".." |
| `Ustar.StripCuts` | src/lib/ustar.c:51-66 | what is cut off is made of such prefixes, and no such prefix is left |
| `Ustar.StripIsSafe` | src/lib/ustar.c:51-66 | a stripped name is not empty or "..", starts with none of "/", "./", "../", and stripping it again changes nothing |
| `Ustar.Offsets` | src/lib/ustar.c:10-20 | the fields start where the struct puts them |
| `Ustar.MoreOffsets` | src/lib/ustar.c:21-31 | and add up to 512 bytes |
| `Ustar.FieldsOfPut` | src/lib/ustar.c:89-102 | writing one field changes that field only |
| `Ustar.CalculateChksum` | src/lib/ustar.c:33-49 | the sum of the bytes before and behind the chksum field and of eight spaces for it |
| `Ustar.ChksumMeans` | src/lib/ustar.c:33-49 | the same of the sum taken byte by byte |
| `Ustar.ChksumOfZeros` | src/lib/ustar.c:33-49 | a header of zeros sums to 256 |
| `Ustar.SumChange` | src/lib/ustar.c:33-49 | changing one byte outside the chksum field changes the sum by the difference |
| `Ustar.IsAllZeros` | src/lib/ustar.c:148-156 | true exactly for a block of zeros |
| `Ustar.ParseHeader` | src/lib/ustar.c:158-209 | each error message, the end of the archive and each entry exactly for the bytes that call for it, checked in that order |
| `Ustar.ParseOfOther` | src/lib/ustar.c:172-188 | which bytes make each of the errors found before the header is known to be genuine |
| `Ustar.ParseOfGenuine` | src/lib/ustar.c:189-208 | which bytes of a genuine header make it too long a name, an unimplemented type, too large, or an entry |
| `Ustar.OneByteChanged` | src/lib/ustar.c:164-209 | changing any one byte outside the chksum field of an accepted header, the end of the archive included, makes it rejected |
| `Ustar.PrintOctal` | src/lib/ustar.c:92-97 | one field is the number in octal digits that fill it and a null byte, and no other byte changes |
| `Ustar.WriteFields` | src/lib/ustar.c:89-102 | all fields but the checksum are as the format says |
| `Ustar.MakeHeader` | src/lib/ustar.c:68-108 | succeeds exactly for names that strip to at most 99 bytes, and then every byte of the 512 is as the format says: name, the digits of mode 0644 or 0755 and of the ids, size, time and checksum in octal digits that fill their fields and a null byte each, type, magic, owner names and zeros; otherwise nothing is written |
| `Ustar.MadeMeans` | src/lib/ustar.c:89-107 | a header composed field by field has those bytes |
| `Ustar.MakeThenParse` | src/lib/ustar.c:68-209 | parsing a made header gives the stripped name, the type and the size (0 for a directory); a negative size of a regular file is reported as too large |

## Left out

- FileStore.FileSystem.InodeWriteAt: the extension lock and the sector locks, which an extension refused by the map would leave held so that later callers wait for ever, and concurrent readers and writers are not modelled.
- FileStore.FileSystem.InodeCreate: the write lock a refused creation keeps on the header is not modelled, nor the release of the header by its caller, and of a file made longer than its tree can hold nothing is said but what it owns.
- FileStore.FileSystem.InodeExtend: the number of the missing sector, which the parent's word in memory has when the block layer panics, is not modelled.
- FileStore.FileSystem.FreeMapAllocate: writing the free map to its own file is not modelled, only the in-memory bitmap.
- FileStore.FileSystem.FreeMapRelease: the same.
- FileStore.FileSystem.InodeClose: the list of open inodes is not modelled; one in-memory inode per file is assumed.
- BufferCache.Cache.FindBlock: the read-ahead thread is not modelled, and where the source waits for a lock the model returns `MustWait`.
- BufferCache.Cache.WriteSector: leaves out a write to sector 0 while a slot is unused, which would fill that slot without marking it valid; no caller writes sector 0.
- BufferCache.Cache.PassThenEvict: access histories of 64 passes or more count as equally old, as the 64-bit record does.
- CacheLock.ProgressCondition: speaks of runs that end with nobody able to move, not of a single thread that waits for ever while others go on.
- HashTable.Hash.Insert: hash_clear, hash_destroy and hash_apply are one loop over the iteration that is modelled, and the hash functions are only asked to respect equality.
- ListSort.List.Sort: list_unique, list_insert_ordered, list_reverse, list_max and list_min are single loops over the link operations that are modelled.
- Malloc.Allocator.Allocate: the locks of descriptors and pools are not modelled; calls run one at a time.
- VirtualMemory.Vm.CreateFilesysPage: asks that a page that writes back shares its part of the file with no other page. Where two do, what either reads depends on which is evicted last.
- VirtualMemory.Vm.Execute: mapping a file is not among the commands; `CreateFilesysPage` states its effect on every page by itself.
- VirtualMemory.Vm.PinPage: waiting for a frame that is being evicted is not modelled; operations run one at a time.
- VirtualMemory.Vm.Fault: failure of calloc for the frame record and of the page-table allocation is not modelled.
- Scheduler.Threads.SetPriority: the yield that may follow is a step of its own, and priority donation is not modelled.
- Scheduler.Threads.LockRelease: priority donation is not modelled beyond arbitrary changes of priorities; its bookkeeping keeps no general invariant.
- Scheduler.Threads.Tick: statistics, time slices and the request to yield on return from the interrupt are left out; any yield may follow.
- Feedback.Accounting.Tick: the tick counter does not wrap at 2^31; thread_get_recent_cpu and thread_get_load_avg are left out.
- Octal.FormatInteger: signs, precision, the # and ' flags, left justification and the parsing of format strings are left out.
- Octal.AccumulateDigits: the grouping of digits and the leading zeros of a precision are left out.
- Page teardown at process exit, which uses a swap pointer that loading a page leaves stale.
- Condition variables, process start and exit, argument passing and system calls.
- Directories, path lookup and the file descriptor layer.
- Device drivers, interrupt entry, page-directory hardware, partition tables, the console and the loader.
- The booter game, the shell, the example programs, utilities and tests.
