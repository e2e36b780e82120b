# Proofs about the data structures and protocols of the C programs

The repository is a collection of independent C programs.  This project models fourteen of
them in Dafny: the ones whose correctness does not show in any single function.  For each
it says what the program computes, on sequences, sets, maps or histories, and proves that
the pointers, arrays and threads compute exactly that.

Where a program changes things in place, so does the model: nodes are classes whose fields
the methods overwrite, arrays are arrays, loops are loops with invariants.  The methods are
proved against functions on values, and what the program promises is proved about those
functions and, as ensures clauses of methods that run whole sequences of operations, about
the heap.  Thread protocols are step systems: one step is what a thread does while it holds
a mutex, and the threads that sleep on a condition variable and those that were woken are
part of the state (IEEE Std 1003.1, `pthread_cond_wait` and `pthread_cond_signal`, with
spurious wakeups).

| modules | program | main result |
|---|---|---|
| BPlusTree, BPlusHeap, BPlusProgram | B+ tree | `Program`: a range scan prints the inserted multiset, filtered and sorted |
| CacheSpec, BlockCache, BlockDevice | block cache over a disk | `RunOps`: reads and writes agree with a disk without a cache, byte for byte |
| SkipList | skip list | `RunOps`: a finite set, whatever levels are drawn |
| AvlTree, AvlHeap | AVL tree | `RunOps`: a balanced search tree of the set |
| MedianTree, MedianFinder | median finder | `FindMedian`: the median of the sorted numbers |
| RingQueue, WorkerPool | clients and workers | `NoDeadlock`, `ShutdownComesLast`, `RunsEnd` |
| RwLock | reader-writer lock | `Exclusion`, `NeverAllAsleep` |
| PoolSpec, MemoryPool | first-fit allocator | `ReachableLive`, `AllocateThenFree` |
| LruSpec, HashChains, LruCache | LRU map | `RunOps`: the value last put, while fewer than capacity other keys were used |
| RangeCount | counting range sums | `CountRangeSum`: the number of ranges |
| Fenwick, OrderCounts | counting by Fenwick tree | `CountSmaller`, `CreateSortedArray` |
| PageReplacement | LRU and Clock simulations | `SimulateLru`, `HitsGrow`, `SimulateClock` |
| WalSpec, CrashRecovery, InsertRecord, FreshIds | log and recovery | `RecoveredIsUpToDate`, `NameOrNothing`, `NewIdsExactly`, `NoneIsReplaced` |

SeqFacts and SortedSeq hold optional values and facts about sequences that several modules use.

Three results explain why code that looks wrong is right:

* `cache_put` never removes an older entry for the same key.  It is right because newer
  entries come first both in the bucket chain and in the LRU list, so a lookup finds the
  newest and an eviction takes the oldest (`BlockCache.FirstInChainIsFound`,
  `BlockCache.EvictedCoherent`).
* The AVL insert chooses its rotation by comparing values instead of balances.  It is right
  because a subtree that grew leans to the side of the inserted value
  (`AvlTree.RebalanceInserted`).
* The merge copies its buffer back only up to `t`.  It is right because the rest of the
  right half is already in place (`RangeCount.Copied`).

One place where code and message disagree: `release_buffer` announces that it writes a
dirty block to the disk and does not (MemoryAllocation/cache.c:94-97).  The model follows
the code; no block is lost, since `write_block` writes the file itself before it releases
the buffer (MemoryAllocation/cache.c:260-261).

One property the programs suggest is false of the code.  `init_database` computes the next
id from the records before recovery replays the log (FILEIO/CrashRecovery/crashRecovery.c:96-101, 325), so after
a crash between `fsync` of a log entry and `msync` of its record, the restarted program
hands out the id of that entry again, and the next insert replaces a durable record.
`FreshIds.IdsMayRepeat` is such a run.  The ids a restart hands out are new if and only if
every id in the log is below the next id (`FreshIds.NewIdsExactly`); exactly the crashes
just described break the condition (`FreshIds.WhichCrashesBreakIt`); and when every restart
meets it no durable record is ever replaced (`FreshIds.NoneIsReplaced`).

Two predicates named `Unfold...` are always true.  The definition that each guards is looked
into only where the guard is mentioned; why is said beside them.

The natural preconditions are explicit: a cached entry is no larger than the cache, a pool
is no smaller than one header, only live pointers are freed, keys of the LRU map hash to a
position in the table, `lower <= upper` for range sums, page numbers are not -1 and there
is at least one frame, the queue has at least one slot and the pool of threads at least one
worker, and the database has a slot for each distinct id.

## Model

| member | source | states |
|---|---|---|
| `BPlusProgram.Program` | Trees/BplusTreeDy.c:198-216 | for any keys and any range, the scan prints a sorted sequence in which every key of the range occurs exactly as often as it was inserted, and no other key occurs |
| `BPlusProgram.InsertAll` | Trees/BplusTreeDy.c:198-208 | the insertion loop ends with a tree that meets the whole invariant, whose `next` chain is its row of leaves, and that holds exactly the multiset inserted |
| `BPlusProgram.InsertKey` | Trees/BplusTreeDy.c:199-207 | one turn: the heap holds the tree that the insertion on values gives, the leaves stay chained, one key more, and the height grows by at most one |
| `BPlusProgram.GrowRoot` | Trees/BplusTreeDy.c:200-206 | the new root has the old root and its new sibling as children and disturbs no leaf link |
| `BPlusProgram.PrintRange` | Trees/BplusTreeDy.c:140-157 | output = the keys of the whole tree between the ends, in order, with multiplicity |
| `BPlusProgram.DescendToLeaf` | Trees/BplusTreeDy.c:141-145 | the descent stops at the leaf whose position the tree determines |
| `BPlusProgram.ScanChain` | Trees/BplusTreeDy.c:147-155 | following `next` from a leaf sees the rest of the row; stopping early loses nothing |
| `BPlusProgram.ScanLeaf` | Trees/BplusTreeDy.c:148-153 | what one leaf prints, up to and including the first key beyond the end |
| `BPlusProgram.EarlyReturn` | Trees/BplusTreeDy.c:152 | once a key exceeds the end no later key of any later leaf is in range |
| `BPlusTree.BuildInv` | Trees/BplusTreeDy.c:198-208 | every sequence of insertions, duplicates included, keeps uniform leaf depth, sorted nodes, separators and fill bounds, holds exactly the inserted multiset, and keeps it in order along the leaves |
| `BPlusTree.InsertInv` | Trees/BplusTreeDy.c:73-137 | insertion keeps the invariant at the same height, whether the node splits or not |
| `BPlusTree.InsertRootInv` | Trees/BplusTreeDy.c:198-208 | at the root the height grows exactly when the root splits; one key more |
| `BPlusTree.InsertCells` | Trees/BplusTreeDy.c:73-137 | insertion replaces exactly one leaf of the row, by itself with the key or by its two halves |
| `BPlusTree.InsertKeys` | Trees/BplusTreeDy.c:73-137 | exactly one occurrence of the key is added |
| `BPlusTree.InsertBounds` | Trees/BplusTreeDy.c:73-137 | what comes out of a child stays within the separators around it |
| `BPlusTree.AddChildInv` | Trees/BplusTreeDy.c:93-136 | adding a separator and a right sibling, with or without splitting the node, keeps the invariant |
| `BPlusTree.ChildIndex` | Trees/BplusTreeDy.c:84-85 | the descent passes exactly the separators below the key |
| `BPlusTree.KeysSorted` | Trees/BplusTreeDy.c:28-70 | under the invariant the keys read along the leaves are sorted |
| `BPlusTree.HeightBound` | Trees/BplusTreeDy.c:53-56 | a tree of h >= 2 levels holds at least 2^h keys |
| `BPlusTree.DescentSkipsSmaller` | Trees/BplusTreeDy.c:141-145 | every leaf the descent passes by holds only keys below the start |
| `BPlusTree.ScanFromDescent` | Trees/BplusTreeDy.c:140-157 | so scanning from the leaf reached finds every key in range |
| `BPlusTree.InRangeCounts` | Trees/BplusTreeDy.c:149 | the filter keeps a key as often as it occurs, exactly when it is in range |
| `BPlusTree.InRangeSorted` | Trees/BplusTreeDy.c:149 | and keeps the order |
| `BPlusHeap.Node.constructor` | Trees/BplusTreeDy.c:16-25 | a new node: empty, unlinked, no children |
| `BPlusHeap.Node.InsertLeaf` | Trees/BplusTreeDy.c:28-36 | the shifting loop inserts the key into the keys in use, in order |
| `BPlusHeap.Node.SplitLeaf` | Trees/BplusTreeDy.c:39-70 | the two leaves share the sorted keys at the middle, and the new one is chained between the old one and its successor |
| `BPlusHeap.Node.AddChildInPlace` | Trees/BplusTreeDy.c:93-101 | the shifting loop puts separator and child in place and leaves the others in order |
| `BPlusHeap.Node.SplitInner` | Trees/BplusTreeDy.c:103-135 | keys and children are dealt out to two nodes around the middle key, which moves up |
| `BPlusHeap.Node.FindChild` | Trees/BplusTreeDy.c:84-85 | the loop finds the child that ChildIndex names |
| `BPlusHeap.Node.Insert` | Trees/BplusTreeDy.c:73-137 | the recursive insertion in the heap refines the one on values, keeps the leaves chained to each other and to what follows, and writes only to its own subtree |
| `BPlusHeap.Node.Descend` | Trees/BplusTreeDy.c:87-91 | the recursive call changes child i alone, and the row of leaves around it stays linked |
| `BPlusHeap.Node.Finish` | Trees/BplusTreeDy.c:91-136 | what the node becomes after the recursive call: unchanged, one child more, or split |
| `BPlusHeap.AfterDescent` | Trees/BplusTreeDy.c:65-66 | the leaf before a split leaf needs no new link, because a split keeps the first leaf first |
| `BPlusHeap.LinkedSplit` | Trees/BplusTreeDy.c:147-155 | a chain over two rows is a chain to the second row and a chain on it |
| `BPlusHeap.LinkedJoin` | Trees/BplusTreeDy.c:147-155 | and the converse |
| `BPlusHeap.SortedCopy` | Trees/BplusTreeDy.c:40-51 | the bubbling loop sorts the new key into the copy |
| `CacheSpec.GetNeverStale` | MemoryAllocation/cache.c:127-198 | after any gets, puts and evictions a get returns the data of the last put of that key or nothing, never an older value |
| `CacheSpec.Survives` | MemoryAllocation/cache.c:127-198 | after a put and any run that does not put the key again, a get returns its data while that and the sizes of all entries used or put since fit the budget together |
| `CacheSpec.PutStays` | MemoryAllocation/cache.c:177-198 | a put of another key evicts an entry only if the new data does not fit with it and all that is ahead of it |
| `CacheSpec.GetStays` | MemoryAllocation/cache.c:127-139 | a hit brings at most the entry it finds ahead of another one |
| `CacheSpec.Put` | MemoryAllocation/cache.c:177-198 | the new record, and behind it the old ones from the front: all of them if they fit, and otherwise as many that one more would break the budget |
| `CacheSpec.Get` | MemoryAllocation/cache.c:159-175 | nothing exactly when no entry has the key |
| `CacheSpec.RunInv` | MemoryAllocation/cache.c:127-198 | in every run the first entry under each key holds what was last put under it, and the sizes stay within the budget |
| `CacheSpec.PutNewest` | MemoryAllocation/cache.c:177-198 | a put that leaves older entries in place keeps this |
| `CacheSpec.GetNewest` | MemoryAllocation/cache.c:159-175 | a get keeps it, and returns the newest data |
| `CacheSpec.EvictFor` | MemoryAllocation/cache.c:179-181 | the loop drops from the tail the fewest entries that make the new size fit |
| `CacheSpec.Find` | MemoryAllocation/cache.c:162-172 | the first entry under the key |
| `BlockCache.FirstInChainIsFound` | MemoryAllocation/cache.c:161-172 | because newer puts come first in both the bucket chain and the LRU list, the first match in the chain is the most recent in the list |
| `BlockCache.PutCoherent` | MemoryAllocation/cache.c:182-196 | a new entry at both fronts keeps the two orders, the same membership and the newest data |
| `BlockCache.MovedKeeps` | MemoryAllocation/cache.c:127-139 | moving the entry found to the front keeps newer entries of a key ahead of older ones |
| `BlockCache.FoundMoves` | MemoryAllocation/cache.c:159-175 | a hit keeps chains and list coherent and answers as the list of records does |
| `BlockCache.EvictedCoherent` | MemoryAllocation/cache.c:141-157 | dropping the tail from list and chain keeps them coherent: it is the oldest of its key |
| `BlockCache.EvictedPosition` | MemoryAllocation/cache.c:147-151 | the victim is in the chain of its bucket, so the walk finds it |
| `BlockCache.HashKey` | MemoryAllocation/cache.c:106-112 | a bucket number, from a 32-bit accumulator over signed chars |
| `BlockCache.Cache.constructor` | MemoryAllocation/cache.c:114-125 | an empty cache is valid |
| `BlockCache.Cache.MoveToFront` | MemoryAllocation/cache.c:127-139 | the doubly linked list afterwards is the entry, then the others in their order |
| `BlockCache.Cache.EvictLru` | MemoryAllocation/cache.c:141-157 | exactly the least recent entry goes, from list and chain; nothing happens when empty |
| `BlockCache.Cache.RemoveFromBucket` | MemoryAllocation/cache.c:147-152 | the walk splices exactly the victim out of its chain |
| `BlockCache.Cache.UnlinkTail` | MemoryAllocation/cache.c:143-146 | the list loses its last entry |
| `BlockCache.Cache.FindInBucket` | MemoryAllocation/cache.c:161-172 | the chain walk returns the most recent entry of the LRU list under the key, or null exactly when there is none |
| `BlockCache.Cache.CacheGet` | MemoryAllocation/cache.c:159-175 | returns and reorders as the list of records does; data returned is that of the last put; nothing exactly when no entry has the key |
| `BlockCache.Cache.CachePut` | MemoryAllocation/cache.c:177-198 | the new record is first; all old ones stay behind it if they fit, and otherwise exactly the most recent ones that do; chains and list hold the same entries; `current_size` is the sum of sizes and within `max_size` |
| `BlockCache.Cache.MakeRoom` | MemoryAllocation/cache.c:179-181 | the eviction loop ends, with the fewest evictions |
| `BlockCache.Cache.LinkNew` | MemoryAllocation/cache.c:188-195 | the new entry is first in its chain and in the list |
| `BlockCache.Cache.LinkHead` | MemoryAllocation/cache.c:191-195 | the list with the entry in front |
| `BlockDevice.RunOps` | MemoryAllocation/cache.c:214-264 | after any interleaving of block reads and writes every byte of the file is that of the last write of its block, or else the original one, or zero in a hole; every read returned just those bytes, and failed exactly beyond the end; every buffer is back |
| `BlockDevice.CachelessIs` | MemoryAllocation/cache.c:231-233 | that is what the same operations on a bare disk leave and return |
| `BlockDevice.DiskRead` | MemoryAllocation/cache.c:231-237 | succeeds exactly if the file has the 4096 bytes from 4096 times the block number on, and returns them |
| `BlockDevice.DiskWrite` | MemoryAllocation/cache.c:259-260 | those bytes are the block's, all others as before, a hole is zeros, and the file is just long enough |
| `BlockDevice.ImageWrite` | MemoryAllocation/cache.c:259-260 | a write extends the bytes that a run should leave by its own |
| `BlockDevice.ImageRead` | MemoryAllocation/cache.c:231-233 | a read of them is what it should return |
| `BlockDevice.FileSystem.constructor` | MemoryAllocation/cache.c:200-212 | an empty cache and a full pool agree with whatever the file holds |
| `BlockDevice.FileSystem.ReadBlock` | MemoryAllocation/cache.c:214-244 | a successful read returns the 4096 bytes at 4096 times the block number; with a free buffer it succeeds exactly if the file has them; the free list is as before; what the cache holds afterwards |
| `BlockDevice.FileSystem.Fetch` | MemoryAllocation/cache.c:225-243 | after a miss: exactly the disk's block, cached, or nothing |
| `BlockDevice.FileSystem.WriteBlock` | MemoryAllocation/cache.c:246-264 | the block's bytes are at 4096 times its number afterwards, and no other byte changed; the cache has it as its newest entry; the free list is as before |
| `BlockDevice.FileSystem.WriteAgrees` | MemoryAllocation/cache.c:257-260 | cache and disk agree after a write although older entries for the block stay in the cache |
| `BlockDevice.WriteThenRead` | MemoryAllocation/cache.c:231-232 | a write is what the next read of the block returns, and disturbs no other block |
| `BlockDevice.KeysDiffer` | MemoryAllocation/cache.c:215-216 | different blocks have different cache keys |
| `BlockDevice.DecimalInjective` | MemoryAllocation/cache.c:216 | decimal notation is injective |
| `BlockDevice.BufferPool.constructor` | MemoryAllocation/cache.c:57-73 | all buffers free, each named once |
| `BlockDevice.BufferPool.GetBuffer` | MemoryAllocation/cache.c:75-87 | takes a free buffer, or fails exactly when there is none; the free part of the list still names each unreferenced buffer once |
| `BlockDevice.BufferPool.ReleaseBuffer` | MemoryAllocation/cache.c:89-104 | the last release gives the buffer back, clean and unassigned |
| `SkipList.RunOps` | SKIPLIST/skiplist.c:43-106 | whatever levels are drawn, any run of inserts, deletes and searches answers as a finite set does |
| `SkipList.SkipList.Shape` | SKIPLIST/skiplist.c:43-106 | in every valid list each level is strictly ascending from the header, each is a sublist of the one below, and those above `level` are empty |
| `SkipList.SkipList.constructor` | SKIPLIST/skiplist.c:28-33 | the empty list |
| `SkipList.SkipList.InsertElement` | SKIPLIST/skiplist.c:43-67 | adds to the set and keeps the towers; nothing is written when the element is there |
| `SkipList.SkipList.InsertNew` | SKIPLIST/skiplist.c:54-65 | a tower of any height is linked in at all its levels |
| `SkipList.SkipList.RaiseLevel` | SKIPLIST/skiplist.c:55-60 | above the old level the header is the predecessor |
| `SkipList.SkipList.SearchElement` | SKIPLIST/skiplist.c:69-82 | true exactly when the element is in the set: the answer depends on nothing else |
| `SkipList.SkipList.FindPredecessors` | SKIPLIST/skiplist.c:44-52 | at every level the last node before the place of x, and the node at that place |
| `SkipList.SkipList.GoRightOn` | SKIPLIST/skiplist.c:47-49 | the inner loop stops at the last smaller node of its level |
| `SkipList.SkipList.DeleteElement` | SKIPLIST/skiplist.c:84-106 | removes from the set and keeps the towers; nothing is written when the element is missing; the top level is not left empty |
| `SkipList.SkipList.Remove` | SKIPLIST/skiplist.c:95-101 | the node leaves every level it is on |
| `SkipList.SkipList.LowerLevel` | SKIPLIST/skiplist.c:102-104 | only empty levels are dropped |
| `SkipList.SkipNode.constructor` | SKIPLIST/skiplist.c:18-26 | a node with null links |
| `SkipList.RandomLevel` | SKIPLIST/skiplist.c:35-41 | any level up to the maximum |
| `SkipList.StopsAtCut` | SKIPLIST/skiplist.c:46-51 | where the inner loop stops at a level is the last node of that level before the cut, so the descent need not go back |
| `SkipList.CutFinds` | SKIPLIST/skiplist.c:52-53 | the element is in the list exactly if the node at the cut carries it |
| `SkipList.LevelNests` | SKIPLIST/skiplist.c:61-65 | level i+1 is the tall part of level i |
| `SkipList.LevelAscending` | SKIPLIST/skiplist.c:46-51 | a level of an ascending list is ascending |
| `SkipList.SpliceLevels` | SKIPLIST/skiplist.c:62-65 | linking bottom up changes each level of the tower and no other |
| `SkipList.SpliceAt` | SKIPLIST/skiplist.c:63-64 | two pointer writes put the node between its neighbours at one level |
| `SkipList.UnlinkLevels` | SKIPLIST/skiplist.c:95-99 | the loop takes the node out of every level of its tower and stops at the first level above |
| `SkipList.UnlinkStep` | SKIPLIST/skiplist.c:96-98 | the test that ends the loop is true exactly above the tower |
| `SkipList.UnlinkAt` | SKIPLIST/skiplist.c:98 | one pointer write takes the node out of one level |
| `AvlHeap.RunOps` | Trees/AVLTree.c:59-153 | after any insertions and deletions the heap holds an AVL tree of exactly the set, of at least fib(h+2)-1 nodes |
| `AvlHeap.RunOp` | Trees/AVLTree.c:59-153 | one operation in place: the set with the value added or removed, and an AVL tree again |
| `AvlTree.InsertAdds` | Trees/AVLTree.c:59-99 | insert adds to the set, keeps order, exact heights and balance, and raises the height by at most one |
| `AvlTree.DeleteRemoves` | Trees/AVLTree.c:109-153 | delete removes from the set, keeps order, exact heights and balance, and lowers the height by at most one |
| `AvlTree.RebalanceInserted` | Trees/AVLTree.c:78-95 | choosing the rotation by comparing the new value with the child's value is choosing it by the child's balance |
| `AvlTree.Rebalance` | Trees/AVLTree.c:133-152 | the four cases restore balance; when the height goes down; when nothing changes |
| `AvlTree.Insert` | Trees/AVLTree.c:59-99 | a tree that grew leans to the side of the inserted value: what makes the value comparison sound one level up |
| `AvlTree.Delete` | Trees/AVLTree.c:109-153 | the result is balanced and at most one lower |
| `AvlTree.RebalanceInOrder` | Trees/AVLTree.c:133-152 | rebalancing moves no value |
| `AvlTree.RebalanceOrdered` | Trees/AVLTree.c:133-152 | rebalancing keeps the search order and the elements |
| `AvlTree.RotateRightInOrder` | Trees/AVLTree.c:32-43 | a right rotation moves no value |
| `AvlTree.RotateLeftInOrder` | Trees/AVLTree.c:45-56 | a left rotation moves no value |
| `AvlTree.FindMinIsLeast` | Trees/AVLTree.c:102-106 | the leftmost value is the least |
| `AvlTree.HeightIsDepth` | Trees/AVLTree.c:15-17 | stored heights are true heights |
| `AvlTree.SizeBound` | Trees/AVLTree.c:59-153 | a tree of height h has at least fib(h+2)-1 values |
| `AvlHeap.Node.constructor` | Trees/AVLTree.c:23-29 | a new node |
| `AvlHeap.FixHeight` | Trees/AVLTree.c:72 | recomputes the height of one node |
| `AvlHeap.RotateRight` | Trees/AVLTree.c:32-43 | the pointer rotation in place, with both heights |
| `AvlHeap.RotateLeft` | Trees/AVLTree.c:45-56 | likewise to the left |
| `AvlHeap.FixInserted` | Trees/AVLTree.c:78-98 | the end of insert in place |
| `AvlHeap.Insert` | Trees/AVLTree.c:59-99 | the recursive insert in place refines the one on values; one new node at most |
| `AvlHeap.FindMin` | Trees/AVLTree.c:102-106 | the loop reaches the leftmost node |
| `AvlHeap.BalanceOf` | Trees/AVLTree.c:19-21 | the balance read off the nodes is that of the tree |
| `AvlHeap.FixDeleted` | Trees/AVLTree.c:132-152 | the end of deleteNode in place |
| `AvlHeap.DeleteNode` | Trees/AVLTree.c:109-153 | the recursive delete in place refines the one on values and uses no new node |
| `AvlHeap.DeleteBelow` | Trees/AVLTree.c:112-129 | the recursive calls, and the successor copied into a node with two children |
| `MedianTree.InsertTimes` | LEETCODE PROBLEMS/mediandta.c:67-110 | insert adds exactly one occurrence of the number |
| `MedianTree.InsertCounts` | LEETCODE PROBLEMS/mediandta.c:67-110 | every size is right again after an insertion, through all rotations |
| `MedianTree.Insert` | LEETCODE PROBLEMS/mediandta.c:67-110 | without the counts, exactly the AVL insert |
| `MedianTree.Changed` | LEETCODE PROBLEMS/mediandta.c:78-85 | a node after the call below it and `update`; a duplicate changes the count alone |
| `MedianTree.RebalanceInserted` | LEETCODE PROBLEMS/mediandta.c:87-109 | the four cases choose the AVL rotation |
| `MedianTree.RebalanceVals` | LEETCODE PROBLEMS/mediandta.c:87-109 | rebalancing moves no number |
| `MedianTree.RebalanceCounts` | LEETCODE PROBLEMS/mediandta.c:87-109 | rebalancing keeps sizes right, root included |
| `MedianTree.SizeCounts` | LEETCODE PROBLEMS/mediandta.c:27-32 | the stored size is the number of values with multiplicity |
| `MedianTree.ValsSorted` | LEETCODE PROBLEMS/mediandta.c:67-110 | the values from left to right are sorted |
| `MedianTree.KthIsKth` | LEETCODE PROBLEMS/mediandta.c:113-124 | skipping subtrees by size reaches the k-th value from the left |
| `MedianTree.KthOutside` | LEETCODE PROBLEMS/mediandta.c:113-124 | out of range `kth` gives -1 |
| `MedianTree.InsertHolds` | LEETCODE PROBLEMS/mediandta.c:139-142 | adding a number to a tree that holds some numbers |
| `MedianTree.KthSmallest` | LEETCODE PROBLEMS/mediandta.c:113-124 | `kth(k)` is the k-th of the sorted sequence of all numbers added, in whatever order they came |
| `MedianTree.FindMedianIsMedian` | LEETCODE PROBLEMS/mediandta.c:144-153 | the median of that sequence, or -1 when there is none |
| `MedianFinder.AvlNode.constructor` | LEETCODE PROBLEMS/mediandta.c:69-75 | a new node |
| `MedianFinder.Update` | LEETCODE PROBLEMS/mediandta.c:27-32 | height and size recomputed from the children |
| `MedianFinder.RightRotate` | LEETCODE PROBLEMS/mediandta.c:35-46 | the pointer rotation in place |
| `MedianFinder.LeftRotate` | LEETCODE PROBLEMS/mediandta.c:49-60 | likewise to the left |
| `MedianFinder.Rebalance` | LEETCODE PROBLEMS/mediandta.c:87-109 | the end of insert in place |
| `MedianFinder.InsertNode` | LEETCODE PROBLEMS/mediandta.c:67-110 | the recursive insert in place refines the one on values |
| `MedianFinder.KthOf` | LEETCODE PROBLEMS/mediandta.c:113-124 | the recursion over nodes computes the order statistic of the tree they hold |
| `MedianFinder.MedianFinder.constructor` | LEETCODE PROBLEMS/mediandta.c:132-137 | no numbers yet |
| `MedianFinder.MedianFinder.AddNum` | LEETCODE PROBLEMS/mediandta.c:139-142 | one number more |
| `MedianFinder.MedianFinder.KthSmallest` | LEETCODE PROBLEMS/mediandta.c:113-124 | the k-th smallest of the numbers added |
| `MedianFinder.MedianFinder.FindMedian` | LEETCODE PROBLEMS/mediandta.c:144-153 | the median of the numbers added |
| `WorkerPool.NoDeadlock` | POSIX/posix.c:29-155 | for any number of clients, at least one worker and any capacity, no reachable state before the end has every unfinished thread blocked, spurious wakeups or not |
| `WorkerPool.Fifo` | POSIX/posix.c:29-62 | in every run what was enqueued is what was dequeued followed by the ring's contents, ids are distinct, only the shutdown signal has id -1, and no wakeup is lost |
| `WorkerPool.ShutdownComesLast` | POSIX/posix.c:94-110 | once a worker received a shutdown signal every request of every client was dequeued, each once and in its client's order |
| `WorkerPool.AtTheEnd` | POSIX/posix.c:132-147 | when main ends all clients and workers have ended and everything enqueued was dequeued |
| `WorkerPool.RunsEnd` | POSIX/posix.c:115-147 | the length of a run is bounded, up to its spurious wakeups |
| `WorkerPool.StuckOnlyAtTheEnd` | POSIX/posix.c:115-147 | a run that cannot be continued has ended with all workers exited |
| `WorkerPool.StepDecreases` | POSIX/posix.c:29-147 | the measure: every step but a spurious wakeup lowers it |
| `WorkerPool.InitMeasure` | POSIX/posix.c:115-131 | its value at the start |
| `WorkerPool.ReachesInv` | POSIX/posix.c:29-147 | the invariant holds after every run |
| `WorkerPool.StepInv` | POSIX/posix.c:29-147 | every step keeps the invariant |
| `WorkerPool.SomeThreadGoesOn` | POSIX/posix.c:29-147 | in a state of the invariant some thread can go on without a spurious wakeup |
| `WorkerPool.ConsumerAwake` | POSIX/posix.c:48-52 | a worker asleep beside a request leaves another one awake |
| `WorkerPool.ProducersFull` | POSIX/posix.c:33-37 | producers that all sleep do so because the queue is full |
| `WorkerPool.EnqueueKeeps` | POSIX/posix.c:29-43 | enqueue: a sleeping consumer implies count <= woken consumers, its mirror for producers, and the request is behind the others |
| `WorkerPool.DequeueKeeps` | POSIX/posix.c:45-62 | the same for dequeue |
| `WorkerPool.StepPills` | POSIX/posix.c:97-103 | as many workers exited as shutdown signals were taken, and the signals come behind all requests |
| `WorkerPool.StepIds` | POSIX/posix.c:71-79 | ids are positive, new and distinct, also those handed out but not yet enqueued |
| `WorkerPool.NextIdCounts` | POSIX/posix.c:71-73 | the next id is one more than the number of requests made so far |
| `WorkerPool.NumberedInOrder` | POSIX/posix.c:71-76 | so the requests are numbered 1, 2, 3 and on in the order in which they are made |
| `WorkerPool.IdsAtTheEnd` | POSIX/posix.c:71-73 | at the end as many ids were handed out as requests were to be made |
| `WorkerPool.StepNumbers` | POSIX/posix.c:69-79 | each client enqueues its requests one by one, each once |
| `WorkerPool.StepFlow` | POSIX/posix.c:115-145 | what main started and joined, and how far each client may be |
| `WorkerPool.StepStatus` | POSIX/posix.c:33-52 | only threads inside enqueue or dequeue sleep |
| `RingQueue.PutAppends` | POSIX/posix.c:38-40 | the ring assignments of enqueue append and overwrite no slot in use |
| `RingQueue.TakeRemoves` | POSIX/posix.c:54-56 | those of dequeue remove the oldest |
| `RingQueue.Queue.constructor` | POSIX/posix.c:17-20 | an empty ring |
| `RingQueue.Queue.Enqueue` | POSIX/posix.c:38-40 | the static variables change as the ring does |
| `RingQueue.Queue.Dequeue` | POSIX/posix.c:54-56 | likewise |
| `RwLock.Exclusion` | POSIX/read-write.c:25-63 | a writer is alone, in every reachable state |
| `RwLock.ReadersYield` | POSIX/read-write.c:25-32 | a reader gets in exactly when no writer is inside or registered as waiting |
| `RwLock.WritersWait` | POSIX/read-write.c:43-52 | a writer gets in exactly when nobody is inside |
| `RwLock.NeverAllAsleep` | POSIX/read-write.c:25-63 | in every reachable state some thread is awake |
| `RwLock.FreeLockIsTaken` | POSIX/read-write.c:25-63 | if nobody is inside but somebody sleeps, a woken writer gets in when it runs next |
| `RwLock.ReachesInv` | POSIX/read-write.c:16-63 | the counters are the numbers of threads in each phase; a sleeping writer implies a holder or a woken writer, a sleeping reader implies an active or waiting writer |
| `RwLock.StepInv` | POSIX/read-write.c:25-63 | every step keeps this |
| `RwLock.LockInv` | POSIX/read-write.c:25-52 | the two lock functions keep it |
| `RwLock.ReadUnlockInv` | POSIX/read-write.c:34-41 | one signal by the last reader is enough |
| `RwLock.WriteUnlockInv` | POSIX/read-write.c:54-63 | a signal to a writer, or else a broadcast to the readers, is enough |
| `RwLock.Lock.constructor` | POSIX/read-write.c:16-23 | nobody inside, nobody waiting |
| `RwLock.Lock.ReadLock` | POSIX/read-write.c:25-32 | the fields change as the step does; the reader is inside exactly if no writer was inside or waiting |
| `RwLock.Lock.ReadUnlock` | POSIX/read-write.c:34-41 | likewise; the signal goes out exactly when no reader is left |
| `RwLock.Lock.WriteLock` | POSIX/read-write.c:43-52 | likewise; the writer is inside exactly if nobody was |
| `RwLock.Lock.WriteUnlock` | POSIX/read-write.c:54-63 | likewise; a waiting writer comes before any reader, and otherwise no reader is left asleep |
| `PoolSpec.ReachesInv` | MemoryPool/memoryPool.c:6-66 | in every reachable pool the blocks tile it exactly and no two free ones are neighbours |
| `PoolSpec.ReachableLive` | MemoryPool/memoryPool.c:6-66 | live payloads are disjoint and inside the pool; with nothing live the single initial block is back |
| `PoolSpec.AllocateLive` | MemoryPool/memoryPool.c:30-46 | success adds exactly one live payload at the first block that fits: at least as large as asked and at most a header larger, or just as large if that block had more to give |
| `PoolSpec.AllocateTakes` | MemoryPool/memoryPool.c:20-38 | the rest of a block with more than a header left over is free right behind the payload, all but the header; blocks before and behind are untouched |
| `PoolSpec.RestServes` | MemoryPool/memoryPool.c:20-46 | so the next allocation succeeds if it fits in that rest |
| `PoolSpec.AllocateOne` | MemoryPool/memoryPool.c:30-46 | one live payload more, at most a header larger than asked |
| `PoolSpec.ReleaseLive` | MemoryPool/memoryPool.c:60-66 | freeing takes exactly that payload away |
| `PoolSpec.AllocateThenFree` | MemoryPool/memoryPool.c:30-66 | allocate then free restores the block list exactly |
| `PoolSpec.AllocateThenRelease` | MemoryPool/memoryPool.c:30-66 | the same with the list taken apart at the block |
| `PoolSpec.FailsOnlyWhenFull` | MemoryPool/memoryPool.c:30-46 | allocation fails exactly when no free block is large enough |
| `PoolSpec.Fit` | MemoryPool/memoryPool.c:31-43 | the first free block that is large enough |
| `PoolSpec.AllocateCoalesced` | MemoryPool/memoryPool.c:33-38 | allocation makes no free neighbours |
| `PoolSpec.AllocateAdds` | MemoryPool/memoryPool.c:33-40 | where the payload lies, and that all others stay |
| `PoolSpec.MergeKeeps` | MemoryPool/memoryPool.c:48-58 | one pass joins all free neighbours, loses no byte and moves no payload |
| `PoolSpec.MergeStable` | MemoryPool/memoryPool.c:48-58 | with nothing to join it changes nothing |
| `PoolSpec.ReleaseRemoves` | MemoryPool/memoryPool.c:60-66 | free removes one payload and leaves no free neighbours |
| `PoolSpec.AllFreeIsInitial` | MemoryPool/memoryPool.c:6-18 | freeing everything restores the initial block |
| `PoolSpec.LiveApart` | MemoryPool/memoryPool.c:20-46 | the payloads of a block list are apart |
| `PoolSpec.OneHolder` | MemoryPool/memoryPool.c:62 | the address of a payload identifies its block |
| `PoolSpec.LiveExactly` | MemoryPool/memoryPool.c:60-63 | the live pointers are the payload addresses of the allocated blocks |
| `PoolSpec.LiveHolder` | MemoryPool/memoryPool.c:62 | a live payload is that of a block that holds it, with its size |
| `PoolSpec.StepLive` | MemoryPool/memoryPool.c:30-66 | an allocation changes nothing if no free block fits, and otherwise adds one live payload, at least as large as asked and at most a header larger; freeing a live pointer takes away the one at it |
| `MemoryPool.Pool.constructor` | MemoryPool/memoryPool.c:6-18 | one free block over the whole pool |
| `MemoryPool.Pool.SplitBlock` | MemoryPool/memoryPool.c:20-28 | writing the two headers splits the block and leaves the others in place |
| `MemoryPool.Pool.FindFit` | MemoryPool/memoryPool.c:31-43 | the search loop finds the first fit |
| `MemoryPool.Pool.PoolAllocate` | MemoryPool/memoryPool.c:30-46 | null exactly when nothing fits, and then nothing changes; otherwise the address of a new payload, at most a header larger than asked, with the rest of its block free behind it, and every other payload as before |
| `MemoryPool.Pool.JoinNext` | MemoryPool/memoryPool.c:52-53 | joining a block with its neighbour |
| `MemoryPool.Pool.MergeBlock` | MemoryPool/memoryPool.c:48-58 | the loop over the headers computes the merge |
| `MemoryPool.Pool.PoolFree` | MemoryPool/memoryPool.c:60-66 | asks for a live pointer or null, and takes away exactly its payload; null is ignored; after the last one the pool is as at first |
| `MemoryPool.Pool.AllocateAndFree` | MemoryPool/memoryPool.c:30-66 | an allocation undone leaves every block as it was |
| `MemoryPool.LaidReplace` | MemoryPool/memoryPool.c:20-28 | rewriting the headers of some blocks over the same bytes leaves the rest of the list laid out |
| `LruSpec.RunKeeps` | LEETCODE PROBLEMS/lrucache.c:183-217 | in every run keys are distinct, no more than the capacity, and every pair holds the value last put |
| `LruSpec.StepKeeps` | LEETCODE PROBLEMS/lrucache.c:183-217 | one operation keeps this |
| `LruSpec.Survives` | LEETCODE PROBLEMS/lrucache.c:183-217 | a value put stays, and a get returns it, while fewer than capacity other keys are used after it |
| `LruSpec.GetAnswers` | LEETCODE PROBLEMS/lrucache.c:183-192 | in every run a get returns the value last put under its key if the cache has the key, and otherwise -1 |
| `LruSpec.PutAnswered` | LEETCODE PROBLEMS/lrucache.c:183-217 | a get returns the value last put under its key if fewer than capacity other keys were used in between |
| `LruSpec.StepAhead` | LEETCODE PROBLEMS/lrucache.c:183-217 | only a key used after it can come ahead of a pair |
| `LruSpec.Find` | LEETCODE PROBLEMS/lrucache.c:96-111 | the position of a key |
| `HashChains.HashTable.constructor` | LEETCODE PROBLEMS/lrucache.c:176-179 | an empty table is the empty map |
| `HashChains.HashTable.GetEntry` | LEETCODE PROBLEMS/lrucache.c:96-111 | the entry of the key in its chain, or null exactly when the map lacks it |
| `HashChains.HashTable.Get` | LEETCODE PROBLEMS/lrucache.c:114-118 | lookup in the map |
| `HashChains.HashTable.Put` | LEETCODE PROBLEMS/lrucache.c:123-140 | the map with that key set |
| `HashChains.HashTable.Remove` | LEETCODE PROBLEMS/lrucache.c:143-168 | the map without that key |
| `HashChains.HashTable.FindWithPrev` | LEETCODE PROBLEMS/lrucache.c:145-166 | the entry and the one before it in the chain |
| `HashChains.HashTable.Unlink` | LEETCODE PROBLEMS/lrucache.c:152-159 | one entry leaves its chain |
| `HashChains.BucketAdd` | LEETCODE PROBLEMS/lrucache.c:133-138 | a chain with a new key in front |
| `HashChains.BucketRemove` | LEETCODE PROBLEMS/lrucache.c:150-159 | a chain without one of its keys |
| `HashChains.IndexableExactly` | LEETCODE PROBLEMS/lrucache.c:29-32 | the hash of a key is a position in the table exactly if the key is not negative or a multiple of the table size |
| `LruCache.RunOps` | LEETCODE PROBLEMS/lrucache.c:170-217 | in a whole run every get returns -1 or the value last put under its key, and that value if fewer than capacity other keys were used since; the cache holds the recency-ordered sequence of pairs |
| `LruCache.AnswersRight` | LEETCODE PROBLEMS/lrucache.c:183-192 | answers that agree with the sequence are so |
| `LruCache.Cache.constructor` | LEETCODE PROBLEMS/lrucache.c:170-181 | an empty cache |
| `LruCache.Cache.AddToHead` | LEETCODE PROBLEMS/lrucache.c:45-58 | the list with the node in front |
| `LruCache.Cache.RemoveNode` | LEETCODE PROBLEMS/lrucache.c:61-79 | the list without the node |
| `LruCache.Cache.MoveToHead` | LEETCODE PROBLEMS/lrucache.c:90-94 | the pair moves to the front |
| `LruCache.Cache.Lookup` | LEETCODE PROBLEMS/lrucache.c:114-118 | the table finds a key exactly if the list holds it, and the same node |
| `LruCache.Cache.Get` | LEETCODE PROBLEMS/lrucache.c:183-192 | returns and reorders exactly as the sequence does, whose answers GetAnswers and Survives determine; list and table still index the same nodes |
| `LruCache.Cache.Put` | LEETCODE PROBLEMS/lrucache.c:194-217 | overwrites, adds and evicts exactly as the sequence does |
| `LruCache.Cache.Evict` | LEETCODE PROBLEMS/lrucache.c:209-215 | the last pair goes, from list and table |
| `LruCache.Cache.RemoveTail` | LEETCODE PROBLEMS/lrucache.c:82-87 | the list without its last node |
| `LruCache.Position` | LEETCODE PROBLEMS/lrucache.c:114-118 | a key that the table knows is in the list, at the position of its pair |
| `RangeCount.CountRangeSum` | LEETCODE PROBLEMS/countRange.c:28-37 | the number of ranges of nums whose sum lies between lower and upper |
| `RangeCount.CountWhileMergeSort` | LEETCODE PROBLEMS/countRange.c:1-26 | returns the number of index pairs of the segment with difference in range, and leaves a sorted permutation of it; nothing outside is touched |
| `RangeCount.CountAndMerge` | LEETCODE PROBLEMS/countRange.c:8-24 | counts the pairs across two sorted halves and merges them |
| `RangeCount.FillCache` | LEETCODE PROBLEMS/countRange.c:9-19 | the loop over the left half: the count, and what the cache holds |
| `RangeCount.Advance` | LEETCODE PROBLEMS/countRange.c:13-15 | the two monotone pointers: j - k is the number of partners of one element |
| `RangeCount.TakeSmaller` | LEETCODE PROBLEMS/countRange.c:17 | the smaller elements of the right half go to the cache |
| `RangeCount.MergeOne` | LEETCODE PROBLEMS/countRange.c:17-18 | one turn of the merge |
| `RangeCount.CopyBack` | LEETCODE PROBLEMS/countRange.c:21-22 | the loop copies the cache back, only up to t |
| `RangeCount.Copied` | LEETCODE PROBLEMS/countRange.c:21-22 | with the untouched end of the right half this is the whole segment |
| `RangeCount.MergeStep` | LEETCODE PROBLEMS/countRange.c:17-18 | one turn keeps the merge invariant |
| `RangeCount.MergeEnds` | LEETCODE PROBLEMS/countRange.c:17-22 | when the left half is used up the rest of the right half follows in order |
| `RangeCount.PairsConcat` | LEETCODE PROBLEMS/countRange.c:5-15 | pairs of a segment = pairs of each half + pairs across |
| `RangeCount.CrossPermutedLeft` | LEETCODE PROBLEMS/countRange.c:5-15 | sorting the left half first does not change the pairs across |
| `RangeCount.CrossPermutedRight` | LEETCODE PROBLEMS/countRange.c:5-15 | nor does sorting the right half |
| `RangeCount.Halves` | LEETCODE PROBLEMS/countRange.c:5-6 | what the two recursive calls leave to be counted and merged |
| `RangeCount.InSorted` | LEETCODE PROBLEMS/countRange.c:13-15 | in a sorted half the partners lie between two cuts |
| `RangeCount.PairSetSize` | LEETCODE PROBLEMS/countRange.c:13-15 | the count is the size of the set of index pairs |
| `RangeCount.RangesArePairs` | LEETCODE PROBLEMS/countRange.c:29-32 | ranges with their sums are pairs of prefix sums with their differences |
| `Fenwick.LowBitIs` | LEETCODE PROBLEMS/createSorted.c:5 | on 32-bit words `x & -x` is the largest power of two dividing a positive x |
| `Fenwick.LowBit` | LEETCODE PROBLEMS/createSorted.c:5 | between 1 and x |
| `Fenwick.CoverStep` | LEETCODE PROBLEMS/createSorted.c:7-12 | the nodes that cover an index are it and those covering the next index of `update`: update touches exactly them |
| `Fenwick.CoveringUpdate` | LEETCODE PROBLEMS/createSorted.c:7-12 | adding to exactly the covering nodes adds to one frequency |
| `Fenwick.PrefixUpdate` | LEETCODE PROBLEMS/createSorted.c:14-21 | what a changed frequency does to prefix sums |
| `Fenwick.EmptyTree` | LEETCODE PROBLEMS/createSorted.c:53 | an array of zeros is the tree of no elements |
| `Fenwick.Update` | LEETCODE PROBLEMS/createSorted.c:7-12 | for any size, the tree of the changed frequencies |
| `Fenwick.Query` | LEETCODE PROBLEMS/createSorted.c:14-21 | the prefix sum of the frequencies, for any size and after any updates |
| `OrderCounts.CreateSortedArray` | LEETCODE PROBLEMS/createSorted.c:30-68 | the sum of the costs modulo 10^9+7, and the sum itself while it is less |
| `OrderCounts.CostOfOne` | LEETCODE PROBLEMS/createSorted.c:57-59 | each element costs the lesser of the numbers of positions before it with smaller and with greater elements |
| `OrderCounts.CostAndRecord` | LEETCODE PROBLEMS/createSorted.c:56-61 | one turn of that loop |
| `OrderCounts.CountSmaller` | LEETCODE PROBLEMS/countersmallernumber.c:28-68 | for each position the number of later positions with a smaller element |
| `OrderCounts.LessFrom` | LEETCODE PROBLEMS/countersmallernumber.c:57-60 | the count of smaller elements in a rest is the number of their positions |
| `OrderCounts.LessUpto` | LEETCODE PROBLEMS/createSorted.c:57 | likewise for a beginning |
| `OrderCounts.GreaterUpto` | LEETCODE PROBLEMS/createSorted.c:58 | likewise for greater elements |
| `OrderCounts.CountAndRecord` | LEETCODE PROBLEMS/countersmallernumber.c:57-60 | one turn of that loop |
| `OrderCounts.Rank` | LEETCODE PROBLEMS/countersmallernumber.c:41-51 | the binary search returns one more than the number of smaller elements |
| `OrderCounts.Ranks` | LEETCODE PROBLEMS/countersmallernumber.c:36-52 | the compression of all elements |
| `OrderCounts.RanksOrder` | LEETCODE PROBLEMS/createSorted.c:57-58 | below the rank of x lie exactly the smaller elements, beyond it exactly the greater ones |
| `OrderCounts.LessGrows` | LEETCODE PROBLEMS/createSorted.c:38-50 | ranks order as values do |
| `OrderCounts.CountsMore` | LEETCODE PROBLEMS/createSorted.c:60 | recording one more element |
| `OrderCounts.CountLess` | LEETCODE PROBLEMS/createSorted.c:57 | the query below a rank counts the smaller elements recorded |
| `OrderCounts.CountGreater` | LEETCODE PROBLEMS/createSorted.c:58 | the number recorded less the query up to the rank counts the greater ones |
| `OrderCounts.Qsort` | LEETCODE PROBLEMS/countersmallernumber.c:38 | stands for the library's qsort: a sorted permutation |
| `PageReplacement.SimulateLru` | week 8/Page cache/pageCahe.c:33-99 | with n frames: hits are the requests for pages requested before with fewer than n others in between, and the frames finally hold exactly the pages with fewer than n others requested since |
| `PageReplacement.HeldIs` | week 8/Page cache/pageCahe.c:49-91 | LRU holds a page exactly if it was requested and fewer than n others were since |
| `PageReplacement.HitsAre` | week 8/Page cache/pageCahe.c:54-58 | so its hits are the requests with fewer than n others in between |
| `PageReplacement.LastUse` | week 8/Page cache/pageCahe.c:57-89 | the last position at which a page is requested |
| `PageReplacement.LruRequest` | week 8/Page cache/pageCahe.c:49-91 | one request: hit exactly if the page is among the n most recent, which the frames hold in the order of their times |
| `PageReplacement.LruHit` | week 8/Page cache/pageCahe.c:54-58 | a hit makes its frame the most recent |
| `PageReplacement.LruEvict` | week 8/Page cache/pageCahe.c:74-83 | with no empty frame, the page of the least recent one gives way |
| `PageReplacement.LruFill` | week 8/Page cache/pageCahe.c:85-89 | an empty frame takes the page |
| `PageReplacement.Inclusion` | week 8/Page cache/pageCahe.c:33-99 | contents with n frames are contained in those with n+1 |
| `PageReplacement.HitsGrow` | week 8/Page cache/pageCahe.c:33-99 | so hits never decrease with more frames |
| `PageReplacement.RecentIs` | week 8/Page cache/pageCahe.c:57-89 | the recency order lists exactly the requested pages, each once, by last use |
| `PageReplacement.HeldStep` | week 8/Page cache/pageCahe.c:49-91 | what one more request does to the n most recent pages |
| `PageReplacement.ReuseFrame` | week 8/Page cache/pageCahe.c:57-83 | a hit, or the eviction of the oldest, makes its frame the most recent |
| `PageReplacement.FillFrame` | week 8/Page cache/pageCahe.c:85-89 | a page in an empty frame |
| `PageReplacement.FullFrames` | week 8/Page cache/pageCahe.c:76-79 | with no empty frame the least time is that of the least recent page |
| `PageReplacement.FindPage` | week 8/Page cache/pageCahe.c:10-16 | the first frame with the page, or -1 exactly when there is none |
| `PageReplacement.Oldest` | week 8/Page cache/pageCahe.c:76-79 | a frame of least time |
| `PageReplacement.SimulateClock` | week 8/Page cache/pageCahe.c:102-164 | every request is a hit that sets the page's bit or a replacement as specified; resident pages are distinct throughout; hits and misses are counted |
| `PageReplacement.ClockRequest` | week 8/Page cache/pageCahe.c:118-150 | one request |
| `PageReplacement.ClockTurn` | week 8/Page cache/pageCahe.c:116-150 | one turn of the loop extends the run by one request and counts it |
| `PageReplacement.Sweep` | week 8/Page cache/pageCahe.c:135-149 | the eviction loop stops within n + 1 turns, evicts the first unreferenced frame in pointer order, clears the bits it passed and moves the pointer behind the victim |
| `PageReplacement.VictimIsFirst` | week 8/Page cache/pageCahe.c:137 | every frame before the victim is referenced, and the victim is not unless all are |
| `PageReplacement.ReferencedIs` | week 8/Page cache/pageCahe.c:137 | and only one frame is so |
| `PageReplacement.RequestedKeeps` | week 8/Page cache/pageCahe.c:132-150 | resident pages stay distinct |
| `CrashRecovery.RecoveredIsUpToDate` | FILEIO/CrashRecovery/crashRecovery.c:204-272 | over any run of inserts, crashes and restarts, after a completed recovery the database maps each id to the last name made durable for it |
| `CrashRecovery.SyncedSurvives` | FILEIO/CrashRecovery/crashRecovery.c:122-194 | once fsync returned for a record, no crash, not even during recovery, loses it: whenever the program is idle again the database has it, or the last name of a later durable entry for its id |
| `FreshIds.NewIdsExactly` | FILEIO/CrashRecovery/crashRecovery.c:95-101 | started from a reachable disk, the program offers inserts new ids only, until it crashes, if and only if every id in the log is below the next id read off the records |
| `FreshIds.IdsMayRepeat` | FILEIO/CrashRecovery/crashRecovery.c:95-101 | a run in which the condition fails and the second insert replaces the first, durable one |
| `FreshIds.NextIdIs` | FILEIO/CrashRecovery/crashRecovery.c:95-101 | the next id is one more than the greatest active id, or 1 if none is positive |
| `FreshIds.BelowExactly` | FILEIO/CrashRecovery/crashRecovery.c:95-101 | all durable ids are below the next one exactly if those in the log are |
| `FreshIds.LifeBelow` | FILEIO/CrashRecovery/crashRecovery.c:174-176 | started so, the counter stays above every durable id |
| `FreshIds.ReusesId` | FILEIO/CrashRecovery/crashRecovery.c:174-176 | started otherwise, a run without a crash that comes to offer a used id |
| `FreshIds.NoneIsReplaced` | FILEIO/CrashRecovery/crashRecovery.c:174-272 | in a run whose restarts all meet the condition, every record ever made durable is in the idle database under an id of its own |
| `FreshIds.SyncedStays` | FILEIO/CrashRecovery/crashRecovery.c:122-194 | so a record whose fsync returned stays as it is, whatever crashes and restarts follow |
| `FreshIds.SafeIds` | FILEIO/CrashRecovery/crashRecovery.c:174-272 | in such a run durable ids are distinct and synced records are ahead of the database by one |
| `FreshIds.WhichCrashesBreakIt` | FILEIO/CrashRecovery/crashRecovery.c:174-201 | after such a run a crash breaks the condition exactly if it keeps the entry of the insert under way but not its record |
| `CrashRecovery.CrashIsAllOrNothing` | FILEIO/CrashRecovery/crashRecovery.c:174-194 | after a crash during an insert and whatever follows, the idle database has the logged record if fsync had returned or the entry reached the disk anyway, and otherwise nothing of it; every other id has what was durable before, unless a later entry decides |
| `InsertRecord.InsertStores` | FILEIO/CrashRecovery/crashRecovery.c:174-194 | an insert ends with the name given, cut at 31 characters, in the database under the next id, and every other id as it was |
| `InsertRecord.NameOrNothing` | FILEIO/CrashRecovery/crashRecovery.c:174-194 | with a crash on the way and whatever follows, the database has that name under that id or is as before the insert; the name, once fsync returned |
| `InsertRecord.LoggedRecord` | FILEIO/CrashRecovery/crashRecovery.c:175-179 | what goes to the log: the name, cut at 31 characters, under the next id |
| `InsertRecord.NotAtRest` | FILEIO/CrashRecovery/crashRecovery.c:183-191 | with a slot for the id the insertion goes on to msync |
| `CrashRecovery.NothingIsLost` | FILEIO/CrashRecovery/crashRecovery.c:108-272 | at every moment, also in the middle of an insert or of a recovery, log and database together hold the last name made durable for every id |
| `CrashRecovery.LaterDecides` | FILEIO/CrashRecovery/crashRecovery.c:108-272 | whenever the program is idle again, ids of later durable entries have their last name, all others what was durable before |
| `CrashRecovery.ReachesInv` | FILEIO/CrashRecovery/crashRecovery.c:108-272 | the invariant holds after every run, while the slots suffice |
| `CrashRecovery.StepInv` | FILEIO/CrashRecovery/crashRecovery.c:108-272 | every step keeps it |
| `CrashRecovery.ReplayInv` | FILEIO/CrashRecovery/crashRecovery.c:225-258 | replaying one entry keeps it, also when recovery was interrupted before |
| `CrashRecovery.FinishInv` | FILEIO/CrashRecovery/crashRecovery.c:262-269 | truncating the log loses nothing |
| `CrashRecovery.FsyncInv` | FILEIO/CrashRecovery/crashRecovery.c:122-125 | an entry made durable is ahead of the database by one record |
| `CrashRecovery.WriteInv` | FILEIO/CrashRecovery/crashRecovery.c:160-161 | writing the record catches up |
| `CrashRecovery.CrashInv` | FILEIO/CrashRecovery/crashRecovery.c:197-201 | a crash that keeps or loses the unsynced entry, the unsynced write and the unsynced truncation keeps it |
| `CrashRecovery.LogKeeps` | FILEIO/CrashRecovery/crashRecovery.c:115-125 | the log stays the end of the history |
| `CrashRecovery.WriteKeeps` | FILEIO/CrashRecovery/crashRecovery.c:133-171 | there is a slot for the id, and only its name changes |
| `WalSpec.ApplySets` | FILEIO/CrashRecovery/crashRecovery.c:133-171 | applying a record sets the name of its id and of no other |
| `WalSpec.ApplyKeeps` | FILEIO/CrashRecovery/crashRecovery.c:133-171 | no id gets two slots |
| `WalSpec.HasRoom` | FILEIO/CrashRecovery/crashRecovery.c:145-158 | while the distinct ids are no more than the slots, the database is not full |
| `WalSpec.SkipIsHarmless` | FILEIO/CrashRecovery/crashRecovery.c:235-244 | an entry skipped as already applied is what the database says |
| `WalSpec.FoldSuffix` | FILEIO/CrashRecovery/crashRecovery.c:225-258 | the end of a history decides for the ids it mentions |
| `WalSpec.ReplayStep` | FILEIO/CrashRecovery/crashRecovery.c:225-258 | one more entry, skipped or applied |
| `WalSpec.CountsNothing` | FILEIO/CrashRecovery/crashRecovery.c:260-269 | recovery counts nothing, and so keeps the log, exactly when every entry was in place; then it changed nothing |
| `WalSpec.CountIs` | FILEIO/CrashRecovery/crashRecovery.c:246-259 | it counts the entries that change a name when their turn comes |
| `WalSpec.ReplayLooksUp` | FILEIO/CrashRecovery/crashRecovery.c:225-258 | replaying leaves the last name the log gives, and other ids as they were |
| `WalSpec.AppliedIs` | FILEIO/CrashRecovery/crashRecovery.c:235-244 | an entry is skipped exactly if the database has its name under its id |
| `WalSpec.Target` | FILEIO/CrashRecovery/crashRecovery.c:134-158 | there is no slot exactly if all are used by other ids |
| `WalSpec.ApplyToDatabase` | FILEIO/CrashRecovery/crashRecovery.c:133-171 | the two search loops and the write compute the slot update, and fail exactly when there is no slot |
| `WalSpec.RecoverFromWal` | FILEIO/CrashRecovery/crashRecovery.c:204-272 | uninterrupted recovery leaves the last name the log gives for each id, other ids as they were, and counts and truncates as specified |
| `WalSpec.ReplayOne` | FILEIO/CrashRecovery/crashRecovery.c:235-257 | one turn of the replay loop |
| `SortedSeq.InsertSortedKeepsOrder` | Trees/BplusTreeDy.c:28-36 | inserting in order keeps sequences sorted |
| `SortedSeq.InsertSortedAdds` | Trees/BplusTreeDy.c:28-36 | and adds one element |

## Left out

- Integer width: ids, keys, sums, counters and sizes are ideal integers, so overflow of `int`, `long` and `size_t` is not modelled; block numbers are bounded so that their byte offset fits an `int`, the hash of cache keys wraps at 32 bits, and `lowbit` is proved on 32-bit words.
- Failure of `malloc`, and `free` as an operation: freed nodes leave the set of nodes a structure owns.
- Printing, menus, reading of input, destruction of structures and display functions.
- Timestamps and mutexes in MemoryAllocation/cache.c: the cache is modelled sequentially, and last access times, which decide nothing, are dropped.
- Failing or partial `write` in `write_block`, which the program does not check either; `lseek` and `open` always succeed.
- BPlusHeap.Node.constructor: the arrays embedded in a node are sequence-valued fields of fixed length, overwritten element by element, so pointers into them are not modelled.
- SkipList.SkipNode.constructor: the `forward` array of a node is such a field too.
- SkipList.RandomLevel: any level may come out; the probabilities, and with them expected running times, are not modelled.
- RingQueue.Queue.Enqueue: starts where the waiting loop ends; the loop itself is part of the steps of WorkerPool.
- WorkerPool.StepInv: a critical section is one step, since the mutex is held throughout; `printf`, `usleep` and the text of a request beyond its client and number are dropped.
- WorkerPool.NoDeadlock: for pools of at least one worker; the program starts four.
- RwLock.NeverAllAsleep: readers may starve while writers keep coming; fairness is not claimed.
- MemoryPool.Pool.constructor: offsets in one range of bytes stand for pointers; the bytes of payloads, alignment, and headers written outside the pool by callers are not modelled.
- OrderCounts.Qsort: an insertion sort stands for the library function, and the comparison does not overflow.
- PageReplacement.SimulateLru: the ARC simulation in the same file is not modelled; it evicts from an empty list when its target is at the maximum.
- CrashRecovery.CrashInv: log entries are appended whole, a slot is written whole or not at all, checksums of written entries match, and `write`, `fsync`, `msync` and `ftruncate` return success; a crash decides once and for all which unsynced changes reached the disk, and those to the log reach it in order.
- InsertRecord.LoggedRecord: a name is a string without the character that ends one in C.
- CrashRecovery.ReachesInv: while the distinct ids are no more than the slots; a full database, where the program gives up an insert after logging it, is not covered.
- Sockets, FIFOs, shared memory, signals, fork and exec, timers, benchmarks and profiling.
- The smaller programs (bounded arrays, searches, key-value stores, bloom filter, query iterator): they would only add easy members.
