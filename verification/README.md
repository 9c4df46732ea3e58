# MicroMeowDB: verified models of its data structures

MicroMeowDB is a database written in C. Its indexes, storage engines, cache, lock manager,
configuration reader and binary log are self-contained data structures over heap lists, trees and
arrays. This project models them in Dafny and proves what they promise.

Each component has several modules where its state is worth separating from its pointers:

* a specification module (`RTreeSpec`, `TransactionSpec`, `StoreSpec`, `SortedPairs`, `CacheSpec`,
  `MemoryEngineSpec`, `LsmSpec`, `ConfigSpec`, `BitmapSpec`, `BinlogSpec`) that defines the steps of the
  component on values and proves properties of every step and of whole runs,
* modules beside it that say exactly when what a caller observes is right (`RTreeAnswers`,
  `Serializability`, `SafeTransactions`, `StoreAnswers`), or what each operation does in plain terms and
  numbers (`TransactionEffects`, `StoreReads`, `CacheEffects`, `LsmFormat`, `ConfigReading`), and
* an imperative module with the classes, arrays and loops of the source, whose methods are proved to
  make exactly those steps.

The main results:

* **R-tree.** After any sequence of inserts the tree is balanced and filled, holds exactly the inserted
  items, and has logarithmic height. Pruned queries agree with a linear scan for every query box if and
  only if every box reaches around what lies below it. The code as written keeps the boxes right
  exactly for inserts that satisfy a stated condition; thirteen inserts are given after which a query
  misses an item. A query after a run of right inserts returns exactly the values of the items that share a
  point with its box. With the box refresh on both branches every run is right. Answers of queries survive
  an insert under a weaker condition, which is stated and exact as well.
* **Lock manager.** Every reachable state is free of lock conflicts, and both records of every lock stay
  in step. Under two-phase locking the precedence relation between transactions has no cycle. More
  exactly, a transaction can be on a cycle with others that have no gap if and only if it has a gap in
  its run alone: a point where it no longer protects a lock it was granted, before a grant that somebody
  else could have got ahead of.
* **Row store and column store.** The two layouts stay in step under a sequence of operations exactly
  when every row given to an effective operation is live with some value or deleted with none; and as
  soon as one is not, look-ups tell them apart, at once or after compaction.
* **B+ tree.** Look-up, range query and count through binary search, descent and leaf chain agree with
  the sorted list of bindings; inserts and deletes that need no restructuring act as map operations.
* **Cache and in-memory engine.** The linked list and the hash chains agree with a list and a map. Storing
  evicts one by one, each time the least used item and only while there is no room. After any run the row
  under an id is the one last given for it; ids are not reused, and the load of the buckets is bounded.
* **LSM tables.** Bytes parse back into what was put. The layers hold exactly the accepted entries after
  every step of a run if and only if no flush overwrites a listed file with other contents, which takes
  two flushes in one second. In any state a look-up finds a key exactly when a memtable holds it or the
  files are searched as far as one that holds its entry within the first MiB, all that is loaded. So
  every flush caused by an entry of at most 9 MiB hides the entry written last before it, if that one's
  key was written once.
* **Configuration.** White space around keys and values is no part of them, and digits are the numbers they
  spell. Saving and loading gives back exactly the keys and values that satisfy a stated
  condition and fit on a line; several registered defaults do not.
* **Binary log.** The manager's records are always a gapless suffix of the events written; the files hold
  what is recorded, at every time of a run, exactly if no rotation deletes a file whose name was used
  again. Three writes in one second are given that leave nothing on disk.
* **Bitmap index, hash index, Bloom filter.** Set algebra by blocks, a map by chains, no false negatives.

Reading the source where it leaves something open:

* The union of leaf and internal entries of an R-tree node is three arrays, and an area difference that
  is not a number is a value of its own that compares as floating point does.
* `transaction_lock` links one node into two lists while commit and unlock free two; each list has its
  own record here. The test against the undeclared `LOCK_TYPE_NONE` counts as always true. The code takes
  the enumeration's zero, READ UNCOMMITTED, for "use the default".
* Keys of the B+ tree are integers, standing for the caller's comparison function.
* Branches that cannot be reached after a split, because a node of eight keeps four, are left out.
* Sizes of structures are those of 64-bit C: 72 bytes for a cache item, 40 for a log event.
* Clocks, file opening and writing are parameters. Allocation succeeds.

`dafny verify dfyconfig.toml` checks the whole project.

## Model

| member | source | states |
|---|---|---|
| RTreeSpec.ExtendIsLeastCover | src/index/r_tree.c:59-68 | extending a box gives the least box that covers both |
| RTreeSpec.ChooseIsFirstLeast | src/index/r_tree.c:81-99 | the chosen child is the first with the least enlargement; an enlargement that is not a number is never chosen over a number, and the first child is the fallback |
| RTreeSpec.ChosenGrowsLeast | src/index/r_tree.c:50-99 | among children that have boxes the first is chosen whose area grows least when its box is stretched to the item |
| RTreeSpec.IntersectsExactly | src/index/r_tree.c:71-78 | boxes that are not inverted meet if and only if they share a point, borders included; any two boxes, if and only if no side passes the opposite one |
| RTreeSpec.InsertKeepsSubtree | src/index/r_tree.c:102-292 | a non-root subtree keeps its height and 4 to 8 entries in every node, and so does any sibling split off |
| RTreeSpec.InsertKeepsRooted | src/index/r_tree.c:362-396 | every insert keeps the whole tree balanced and filled, with the height counter right |
| RTreeSpec.InsertConserves | src/index/r_tree.c:150-292 | an insert adds exactly its item to the multiset of items |
| RTreeSpec.HeightBound | src/index/r_tree.c:362-396 | a tree of height h at least 2 holds at least 2*4^(h-1) items |
| RTreeSpec.RunShape | src/index/r_tree.c:362-396 | after any sequence of inserts: balance, occupancy, contents, counter and height bound together |
| RTreeSpec.QuerySound | src/index/r_tree.c:296-330 | whatever the boxes, the pruned query returns only what the linear scan returns |
| RTreeSpec.QueryIncomplete | src/index/r_tree.c:296-330 | if some box falls short of an item below it, some query misses an item |
| RTreeSpec.QueryExact | src/index/r_tree.c:71-78 | the pruned query equals the linear scan for all query boxes if and only if every box reaches around what lies below it |
| RTreeSpec.SafeInsertCovers | src/index/r_tree.c:244-288 | an insert that meets the condition keeps every box covering what lies below it, in the code as written |
| RTreeSpec.UnsafeInsertUncovers | src/index/r_tree.c:244-276 | an insert that does not meet it always leaves a box that no longer covers the new item |
| RTreeSpec.RefreshedInsertCovers | src/index/r_tree.c:277-288 | with the refresh on the split branch too, every insert keeps every box covering |
| RTreeSpec.InsertCoversExactly | src/index/r_tree.c:150-292 | one insert of the code as written keeps the boxes right if and only if it meets the condition |
| RTreeSpec.RunCoveredExactly | src/index/r_tree.c:362-396 | the boxes are right after every step of a run if and only if every step met the condition |
| RTreeSpec.SafeRunQueries | src/index/r_tree.c:296-330 | after such a run every query answers as the linear scan of the tree does, and up to order as that of the inserted items |
| RTreeSpec.SafeRunFinds | src/index/r_tree.c:296-330 | after such a run a query returns the values of exactly the inserted items that share a point with its box, each as often as there are such items |
| RTreeSpec.RefreshedRunQueries | src/index/r_tree.c:296-330 | with the refresh, every query after every run answers as the linear scan of the tree does, and up to order as that of the inserted items |
| RTreeAnswers.InsertAnswersExactly | src/index/r_tree.c:244-288 | after an insert into a tree with right boxes every query answers as the linear scan does if and only if, at each node of the path whose child splits, the node's own box (when it has room) or the old copies in the half that gets the item (when it is full) cover the item |
| RTreeAnswers.InsertReaches | src/index/r_tree.c:150-292 | under the same condition, and only then, the boxes of all nodes reach around their items |
| RTreeAnswers.RunAnswersExactly | src/index/r_tree.c:362-396 | after a safe run, the next insert keeps the answers of all queries right if and only if it meets that condition |
| RTreeAnswers.SafeIsRight | src/index/r_tree.c:244-288 | an insert that keeps the copies right meets it |
| RTreeSpec.QueryLosesAnItem | src/index/r_tree.c:244-276 | thirteen inserts after which the query for the last item's own box finds nothing |
| RTree.RNode.ChooseSubtree | src/index/r_tree.c:81-99 | the loop over the children computes the specified choice |
| RTree.RNode.SplitLeaf | src/index/r_tree.c:112-127 | the upper half of the items moves to the sibling and both boxes are those of their items |
| RTree.RNode.SplitInternal | src/index/r_tree.c:128-147 | the upper half of the children moves to a sibling that shares no object with the node, and both boxes are rebuilt |
| RTree.RNode.InsertIntoLeafNode | src/index/r_tree.c:153-234 | the leaf branch makes the specified change of the tree value |
| RTree.RNode.Settle | src/index/r_tree.c:244-289 | what a node does once a child took the item, split or not, is the specified change |
| RTree.RNode.Adopt | src/index/r_tree.c:244-276 | a child split off below is added, after splitting the node when it is full |
| RTree.RNode.InsertRec | src/index/r_tree.c:150-292 | recursive insertion in the heap changes the tree value as specified and keeps the nodes separate |
| RTree.RNode.QueryRec | src/index/r_tree.c:296-330 | appends exactly the values of the specified query to the results so far |
| RTree.RTreeIndex.Insert | src/index/r_tree.c:362-396 | the tree after an insert is the one specified for the log of all inserts |
| RTree.RTreeIndex.Query | src/index/r_tree.c:399-437 | answers the specified query of the tree built from the log; never more than the scan, and after a safe run the values of exactly the items that share a point with the box |
| TransactionSpec.RemoveEachRemovesAll | src/transaction/transaction.c:121-146 | when a transaction's list is the global list filtered by its id, the first-match loops remove exactly its records, repeated ones included, and keep the rest in order |
| TransactionSpec.RemoveFirstOwned | src/transaction/transaction.c:301-342 | releasing takes the same record out of both lists and leaves every other transaction's view unchanged |
| TransactionSpec.StepKeepsInv | src/transaction/transaction.c:78-421 | every operation keeps the two records of each lock in step, the counters right and the locks compatible |
| TransactionSpec.RunIsConflictFree | src/transaction/transaction.c:237-298 | in every reachable state, of two locks of different transactions on one resource neither is exclusive if the other is exclusive or shared |
| TransactionSpec.IntentBesideExclusive | src/transaction/transaction.c:237-250 | the guarantee does not extend to intention locks: one may be granted beside an exclusive lock |
| TransactionSpec.HeldUntilOver | src/transaction/transaction.c:253-342 | a granted lock that is not released early is held until its transaction is over |
| TransactionSpec.ConflictOrder | src/transaction/transaction.c:237-298 | a blocked request is granted only after the transaction in the way has ended |
| Serializability.PrecedenceFollowsEnds | src/transaction/transaction.c:116-218 | without early release, precedence between transactions follows the order in which they end |
| Serializability.PrecedenceFollowsExposure | src/transaction/transaction.c:237-342 | a transaction that precedes one without gaps is exposed - no longer refuses what a lock it was granted blocks - before that one is |
| Serializability.GaplessIsAcyclic | src/transaction/transaction.c:237-342 | the precedence relation has no cycle through transactions without gaps |
| Serializability.TwoPhaseIsGapless | src/transaction/transaction.c:301-342 | a transaction that requests nothing after a release has no gap |
| Serializability.PrecedenceIsAcyclic | src/transaction/transaction.c:116-342 | if every transaction locks in two phases, the precedence relation of a run has no cycle |
| Serializability.EarlyReleaseMakesACycle | src/transaction/transaction.c:301-342 | a run with early release in which two transactions precede each other |
| SafeTransactions.GaplessInCompany | src/transaction/transaction.c:253-342 | a transaction without a gap when it runs alone has none in any run in which its operations are answered as alone |
| SafeTransactions.GapMakesACycle | src/transaction/transaction.c:253-342 | for every transaction with a gap when alone there is a run that carries it, all operations answered as alone, in which a second one, which locks in two phases, is before and after it |
| SafeTransactions.SafeExactly | src/transaction/transaction.c:253-342 | a transaction is on no cycle in any run that carries it among others without gaps if and only if it has no gap when alone |
| TransactionSpec.AcquireExactly | src/transaction/transaction.c:253-298 | a lock is granted if and only if the transaction is active and nobody else's lock blocks it; a refusal changes nothing |
| TransactionSpec.CleanupExactly | src/transaction/transaction.c:402-421 | clean-up ends exactly the active transactions past the time-out and takes no lock from anybody else |
| TransactionSpec.CleanupReports | src/transaction/transaction.c:402-421 | clean-up reports success if and only if some transaction had timed out |
| TransactionSpec.VictimIsOldest | src/transaction/transaction.c:360-383 | the victim is the first active transaction with the least start time |
| TransactionEffects.BeginEffect | src/transaction/transaction.c:78-113 | beginning appends an active transaction without locks that carries the clock of its beginning and the isolation asked for or the default, unless as many are open as are allowed |
| TransactionEffects.OriginStays | src/transaction/transaction.c:89-96 | id, isolation and start time of a transaction stay for the rest of a run |
| TransactionEffects.CleanupEffect | src/transaction/transaction.c:402-421 | in any run a clean-up rolls a transaction back, and takes its locks, if and only if it is active and began more than 300 seconds before |
| TransactionEffects.DeadlockEffect | src/transaction/transaction.c:360-383 | deadlock handling succeeds if and only if some active transaction began by now, and then rolls back exactly the first of the oldest; all others keep state and locks |
| TransactionEffects.EndingEffect | src/transaction/transaction.c:116-218 | commit ends an active transaction, rollback an active or prepared one, and neither changes anything else |
| TransactionEffects.AcquireEffect | src/transaction/transaction.c:237-298 | an exclusive lock is refused for any lock of another transaction, a shared one for an exclusive one, an intention lock never; a granted lock is stamped and recorded last |
| TransactionEffects.ReleaseEffect | src/transaction/transaction.c:301-342 | releasing succeeds if and only if a lock is held on the resource, and gives up the one granted first |
| Transaction.TransactionManager.Begin | src/transaction/transaction.c:78-113 | beginning makes the specified step, refusing when the limit is reached |
| Transaction.TransactionManager.AcquireLock | src/transaction/transaction.c:253-298 | locking makes the specified step |
| Transaction.TransactionManager.CheckLockConflict | src/transaction/transaction.c:237-250 | the loop finds a conflict if and only if there is one |
| Transaction.TransactionManager.ReleaseLock | src/transaction/transaction.c:301-342 | unlocking makes the specified step on both lists |
| Transaction.TransactionManager.CommitTransaction | src/transaction/transaction.c:116-164 | committing makes the specified step and keeps the invariant |
| Transaction.TransactionManager.RollbackTransaction | src/transaction/transaction.c:167-218 | rolling back makes the specified step and keeps the invariant |
| Transaction.TransactionManager.CleanupTimedOut | src/transaction/transaction.c:402-421 | the time-out scan makes the specified step |
| Transaction.TransactionManager.BreakDeadlock | src/transaction/transaction.c:360-383 | rolls back the specified victim |
| StoreSpec.StepRelatedExactly | src/storage/row_engine.c:203-506 | on related tables both engines answer alike, and stay related if and only if the rows given are agreeable |
| StoreSpec.CompactMatches | src/storage/column_engine.c:746-780 | both compactions are the same order-preserving filter |
| StoreSpec.OptimizeRelated | src/storage/row_engine.c:463-506 | compaction and shrinking keep the tables related |
| StoreSpec.SelectRelated | src/storage/column_engine.c:598-680 | a look-up finds the same cells, or all NULLs where the row engine finds nothing |
| StoreSpec.ColumnStepKeepsShape | src/storage/column_engine.c:296-813 | columns stay equally long and masks mark exactly the missing values |
| StoreSpec.RunsRelatedExactly | src/storage/column_engine.c:296-813 | the engines stay in step throughout a run if and only if the run is agreeable |
| StoreSpec.RunsAnswerAlike | src/storage/row_engine.c:203-506 | after an agreeable run the next operation and every look-up are answered alike |
| StoreAnswers.RunsAnswerAlikeExactly | src/storage/column_engine.c:296-813 | at all times in a run every look-up is answered alike, and would be after compacting both tables, if and only if the run is agreeable |
| StoreAnswers.NearDiverges | src/storage/column_engine.c:746-780 | tables that disagree in a row they were both given answer some look-up differently, at once or after compaction |
| StoreSpec.AllNullRowDiverges | src/storage/column_engine.c:746-780 | a live row of NULLs only is kept by one compaction and dropped by the other |
| StoreReads.RowReads | src/storage/row_engine.c:203-506 | after any run the row engine finds under an id what was last put in that place, if it was not deleted, and update and delete succeed if and only if there is such a place |
| StoreReads.ColumnReads | src/storage/column_engine.c:296-813 | the same for the column engine, in which a deleted row is a row of NULLs and compaction closes the gaps of such rows |
| RowStore.RowTable.InsertRow | src/storage/row_engine.c:203-236 | appends the row and makes the specified step, growing the array when full |
| RowStore.RowTable.InsertBatch | src/storage/row_engine.c:239-276 | appends the batch and makes the specified step; an empty batch is refused |
| RowStore.RowTable.UpdateRow | src/storage/row_engine.c:279-324 | makes the specified step, refusing row ids that are not valid |
| RowStore.RowTable.DeleteRow | src/storage/row_engine.c:327-367 | marks the row as deleted, as specified |
| RowStore.RowTable.SelectRow | src/storage/row_engine.c:370-409 | finds the live row with the id, as specified |
| RowStore.RowTable.CompactRows | src/storage/row_engine.c:463-506 | compaction in place leaves exactly the live rows, in order |
| RowStore.RowTable.OptimizeTable | src/storage/row_engine.c:463-506 | makes the specified step, shrinking the array when it is less than half full |
| ColumnStore.ColumnTable.InsertRow | src/storage/column_engine.c:296-380 | writes the cells behind every column and makes the specified step |
| ColumnStore.ColumnTable.InsertBatch | src/storage/column_engine.c:383-471 | makes the specified step |
| ColumnStore.ColumnTable.UpdateRow | src/storage/column_engine.c:474-557 | overwrites the cells of the row in every column, as specified |
| ColumnStore.ColumnTable.DeleteRow | src/storage/column_engine.c:560-595 | overwrites the row with NULLs in every column, as specified |
| ColumnStore.ColumnTable.SelectRow | src/storage/column_engine.c:598-681 | collects the cells of the row from the columns, as specified |
| ColumnStore.ColumnTable.CompactRows | src/storage/column_engine.c:746-780 | compaction in place leaves in every column exactly the entries of the live rows, in order |
| ColumnStore.ColumnTable.OptimizeTable | src/storage/column_engine.c:735-813 | makes the specified step |
| ColumnStore.ColumnTable.ReallocateAll | src/storage/column_engine.c:63-107 | new arrays for all columns keep the entries in use |
| SortedPairs.FindIsLookup | src/index/b_plus_tree.c:464-473 | look-up in a sorted list is look-up in its map |
| SortedPairs.PutIsUpdate | src/index/b_plus_tree.c:335-376 | putting into a sorted list keeps it sorted and updates its map at one key |
| SortedPairs.DropIsRemoval | src/index/b_plus_tree.c:379-406 | dropping from a sorted list keeps it sorted and removes one key from its map |
| SortedPairs.InRangeIsRestriction | src/index/b_plus_tree.c:476-530 | the range of a sorted list is sorted and its map is the restriction to the bounds |
| BPlusTree.BNode.FindKeyIndex | src/index/b_plus_tree.c:90-109 | binary search returns the first position whose key is not below the one sought |
| BPlusTree.BNode.ScanRange | src/index/b_plus_tree.c:491-521 | scanning a leaf appends exactly its bindings within the bounds |
| BPlusTree.BNode.PutHere | src/index/b_plus_tree.c:335-376 | inserting shifts the arrays of a leaf with room, overwrites an existing key, and otherwise leaves the leaf for splitting |
| BPlusTree.BNode.DropHere | src/index/b_plus_tree.c:379-406 | deleting shifts the arrays of a leaf over the binding |
| BPlusTree.BoundsAscend | src/index/b_plus_tree.c:90-121 | the key intervals of the leaves, read off the separators, ascend without overlap |
| BPlusTree.RouteHolds | src/index/b_plus_tree.c:112-121 | the descent ends in the leaf whose interval holds the key |
| BPlusTree.Descend | src/index/b_plus_tree.c:112-121 | the loop over node pointers reaches the leaf of the specified route |
| BPlusTree.BTree.ContentsSorted | src/index/b_plus_tree.c:538-548 | the leaf chain lists the bindings in ascending order |
| BPlusTree.BTree.OperateOnLeaf | src/index/b_plus_tree.c:335-406 | looking up, putting and dropping a key in the whole tree is doing so in the leaf the descent finds |
| BPlusTree.BTree.FindValue | src/index/b_plus_tree.c:464-473 | agrees with look-up in the list of all bindings |
| BPlusTree.BTree.RangeQuery | src/index/b_plus_tree.c:476-530 | returns exactly the bindings with start <= key <= end, in ascending order, for any bounds |
| BPlusTree.BTree.KeyCount | src/index/b_plus_tree.c:538-548 | the walk along the chain counts the bindings |
| BPlusTree.BTree.InsertPair | src/index/b_plus_tree.c:335-376 | puts the binding and keeps the tree well formed; leaves it unchanged exactly when the key is new and the leaf reached is full, where a split would follow |
| BPlusTree.BTree.DeleteKey | src/index/b_plus_tree.c:379-406 | removes the binding and keeps the tree well formed, and says that a leaf is left empty exactly when the binding was its last |
| CacheSpec.StepKeepsInv | src/memory/memory_cache.c:166-370 | every operation keeps `used` the sum of the sizes and within the capacity, keys distinct and the count within its limit |
| CacheSpec.SetExactly | src/memory/memory_cache.c:166-262 | storing succeeds if and only if key and value are not empty and the item alone fits; then the key reads back, and other keys read as before or were evicted; an item that can never fit empties the cache |
| CacheSpec.MakeRoomKeeps | src/memory/memory_cache.c:175-179 | the eviction loop ends with room if and only if the item alone fits, and only removes bindings |
| CacheEffects.SetEffect | src/memory/memory_cache.c:166-262 | storing evicts items one by one, each time the least used one and only while there is no room, and then puts the entry at the head of what is left |
| CacheEffects.SetWithRoom | src/memory/memory_cache.c:174-179 | with room for the item nothing is evicted |
| CacheEffects.EvictedUsedLeast | src/memory/memory_cache.c:76-133 | whatever was evicted had been used no more often than anything that is left |
| CacheEffects.GetEffect | src/memory/memory_cache.c:265-295 | a hit moves the entry to the head, counted and stamped; a miss changes only the time |
| CacheEffects.DeleteEffect | src/memory/memory_cache.c:298-340 | deleting takes out the entry of the key and nothing else |
| CacheSpec.GetDeleteExactly | src/memory/memory_cache.c:265-340 | getting changes no binding, deleting removes exactly one |
| CacheSpec.GetCountsAccess | src/memory/memory_cache.c:33-44 | a hit counts one access, modulo 2^32, and stamps the time; no other record changes |
| CacheSpec.SetCountsAccess | src/memory/memory_cache.c:181-262 | storing without eviction counts an access of a key that is there and starts a new one at one; no other record changes |
| CacheSpec.StepKeepsOrder | src/memory/memory_cache.c:33-73 | with a clock that never goes back the list stays sorted by access time from head to tail |
| CacheSpec.VictimIsLeast | src/memory/memory_cache.c:76-96 | the victim has the least count, then the oldest time, then the place nearest the tail |
| CacheSpec.VictimByCountAlone | src/memory/memory_cache.c:85-96 | on a list in time order the time comparison never changes the choice |
| CacheSpec.RunKeeps | src/memory/memory_cache.c:166-370 | both invariants hold after any run, the time order for clocks that never go back |
| MemoryCache.LruCache.Find | src/memory/memory_cache.c:14-30 | the walk from the head finds the first item with the key |
| MemoryCache.LruCache.UpdateAccess | src/memory/memory_cache.c:33-73 | counts the access, with 32-bit wrap-around, stamps it and moves the item to the head |
| MemoryCache.LruCache.Evict | src/memory/memory_cache.c:76-133 | the scan from the tail finds the specified victim and unlinks it |
| MemoryCache.LruCache.Set | src/memory/memory_cache.c:166-262 | makes the specified step and keeps both pointer chains through the list |
| MemoryCache.LruCache.Get | src/memory/memory_cache.c:265-295 | makes the specified step and returns the value |
| MemoryCache.LruCache.Delete | src/memory/memory_cache.c:298-340 | makes the specified step |
| MemoryCache.LruCache.Clear | src/memory/memory_cache.c:343-370 | makes the specified step |
| MemoryEngineSpec.StepKeepsInv | src/storage/memory_engine.c:235-578 | every operation keeps row ids below the next one, 4*(rows-1) below 3*buckets, and the buckets within 8/3 of the rows ever inserted |
| MemoryEngineSpec.RunKeepsInv | src/storage/memory_engine.c:235-578 | the same after any run from the empty table |
| MemoryEngineSpec.IdsAreNotReused | src/storage/memory_engine.c:254-255 | once a row id is gone, no later run brings it back |
| MemoryEngineSpec.NextIdExactly | src/storage/memory_engine.c:254-255 | ids are given out in order, from 1 on |
| MemoryEngineSpec.RunReads | src/storage/memory_engine.c:235-498 | after any run the row under an id is the one last given for it by insertion, batch or update, and there is one if and only if it was given out and not deleted since |
| MemoryEngineSpec.RunAnswers | src/storage/memory_engine.c:290-440 | update and delete succeed if and only if there is such a row, a batch if and only if it is not empty |
| MemoryEngineSpec.BatchIsInserts | src/storage/memory_engine.c:290-343 | a batch stores the same rows under the same ids as inserting one by one; the bucket count is the same, or double exactly when the rows then fill three quarters of the buckets |
| MemoryEngine.Push | src/storage/memory_engine.c:88-96 | linking a node at the head of its bucket keeps the chains |
| MemoryEngine.MemoryTable.Expand | src/storage/memory_engine.c:68-107 | rehashing puts every node into the bucket its id hashes to, relinks both directions, and refuses to shrink |
| MemoryEngine.MemoryTable.Insert | src/storage/memory_engine.c:235-287 | makes the specified step |
| MemoryEngine.MemoryTable.BatchInsert | src/storage/memory_engine.c:290-343 | makes the specified step; an empty batch is refused |
| MemoryEngine.MemoryTable.Update | src/storage/memory_engine.c:346-386 | makes the specified step |
| MemoryEngine.MemoryTable.Delete | src/storage/memory_engine.c:389-440 | unlinks the node in mid-chain or at the head and makes the specified step |
| MemoryEngine.MemoryTable.Select | src/storage/memory_engine.c:443-498 | finds a row if and only if its id is in the map, and returns it |
| MemoryEngine.MemoryTable.Optimize | src/storage/memory_engine.c:557-578 | changes nothing at all |
| LsmSpec.Le32RoundTrip | src/index/lsm_tree.c:42-56 | a 32-bit length written to memory reads back |
| LsmSpec.EntryAt | src/index/lsm_tree.c:36-71 | every entry can be read back from the bytes, field by field, and the next one begins where it ends |
| LsmFormat.EntryLayout | src/index/lsm_tree.c:36-49 | an entry is key length, value length - each in four bytes, lowest first - key and value |
| LsmFormat.InsertFits | src/index/lsm_tree.c:224-248 | an insertion succeeds if and only if its bytes fit into the 10485760 of the active memtable, or of an empty one while none is frozen |
| LsmFormat.InsertPlaces | src/index/lsm_tree.c:224-323 | with room the entry goes last into the active memtable; otherwise that one is frozen, flushed with its number of entries if it can be, and begun anew |
| LsmFormat.FileFinds | src/index/lsm_tree.c:132-172 | a file finds a key if and only if its first entry for it ends within the first 1048576 bytes |
| LsmSpec.ScanWhole | src/index/lsm_tree.c:51-71 | scanning the bytes of a memtable answers as its list of entries does and never leaves them |
| LsmSpec.TableScanExactly | src/index/lsm_tree.c:132-172 | a file finds a key if and only if the first entry with that key ends within the first MiB, which is all that is loaded; the scan leaves what was loaded if and only if an entry before is cut at a place it reads |
| LsmSpec.ReplaceFile | src/index/lsm_tree.c:74-83 | writing a file of the same name changes what the tables hold if and only if it is listed with another content |
| LsmSpec.FlushConserves | src/index/lsm_tree.c:283-323 | a flush keeps everything stored if and only if it overwrites no listed file that holds something else |
| LsmSpec.InsertConserves | src/index/lsm_tree.c:224-248 | an insertion succeeds exactly when the entry fits the active memtable, or an empty one while none is frozen; it loses nothing if and only if the flush it may cause does not overwrite |
| LsmSpec.RunConservesExactly | src/index/lsm_tree.c:224-323 | the layers hold exactly the accepted entries, in order, after every step of a run if and only if no flush overwrites |
| LsmSpec.RunConserves | src/index/lsm_tree.c:224-323 | as long as no flush overwrites, the layers together hold exactly the accepted entries, in order |
| LsmSpec.TablesLookupExactly | src/index/lsm_tree.c:264-276 | a search of the files finds a key, runs over what was loaded, or finds nothing, each exactly when the first file that is not passed has the key readable, cuts the scan short, or does not exist |
| LsmSpec.GetExactly | src/index/lsm_tree.c:250-276 | the same for the whole look-up in any state: found if and only if a memtable holds the key or the files are searched as far as one in which it is readable |
| LsmSpec.GetIsLookup | src/index/lsm_tree.c:250-276 | while no file exceeds what is loaded, a look-up answers with the first match in the order active, frozen, files as flushed |
| LsmSpec.FoundIsStored | src/index/lsm_tree.c:250-276 | in any state a value found is stored with the key |
| LsmSpec.ReadBack | src/index/lsm_tree.c:250-276 | in every state reached without overwriting a key is found exactly under the condition for look-ups, with a value that was accepted with it; while no file exceeds what is loaded, that is every accepted key |
| LsmSpec.OrdinaryFlushHides | src/index/lsm_tree.c:132-172 | every flush that an entry of at most 9 MiB causes leaves the last entry before it unfound, if its key was written once |
| LsmSpec.OrdinaryRunHidesAnEntry | src/index/lsm_tree.c:132-172 | three accepted entries and one flush, nothing overwritten, after which one of them is not found |
| LsmSpec.SameSecondLosesAnEntry | src/index/lsm_tree.c:74-83 | two flushes in one second after which an accepted entry is gone |
| Lsm.MemTable.Put | src/index/lsm_tree.c:36-49 | appends the encoded entry if the memtable is not frozen and has room |
| Lsm.MemTable.Get | src/index/lsm_tree.c:51-71 | the offset loop computes the specified scan, which is look-up in the list of entries |
| Lsm.SearchFile | src/index/lsm_tree.c:132-172 | computes the specified scan of the part of a file that is loaded |
| Lsm.LsmTree.WriteFile | src/index/lsm_tree.c:85-121 | counts the entries by parsing them and writes count and bytes |
| Lsm.LsmTree.Flush | src/index/lsm_tree.c:283-323 | makes the specified step |
| Lsm.LsmTree.Insert | src/index/lsm_tree.c:224-248 | makes the specified step, freezing and replacing the active memtable when it is full |
| Lsm.LsmTree.Get | src/index/lsm_tree.c:250-276 | computes the specified look-up through the layers |
| ConfigSpec.ShowIntRoundTrip | src/config/config.c:195-198 | printing a 32-bit number and reading it back gives the number |
| ConfigSpec.LineRoundTrip | src/config/config.c:68-120 | a saved setting is parsed and guessed back to its key and value |
| ConfigSpec.ParsedIsOk | src/config/config.c:68-120 | whatever a line sets satisfies the conditions on keys and values |
| ConfigReading.PaddedLine | src/config/config.c:68-110 | blank, tab, newline, vertical tab, form feed and carriage return around key and value are no part of them |
| ConfigReading.IdleLine | src/config/config.c:74-85 | a line whose first other character is a number sign or semicolon sets nothing, nor does one without an equals sign |
| ConfigReading.DigitsAreNumbers | src/config/config.c:185-203 | decimal digits, with or without a sign, are the number they spell; beyond 32 bits the lower bits count, beyond 64 the limit |
| ConfigReading.WordsAreKept | src/config/config.c:185-203 | true and false are booleans, other words strings, and what has a point is a double |
| ConfigReading.OneLineFile | src/config/config.c:168-211 | a file of one such line sets that key to that value, and no other |
| ConfigReading.LongLineIsCut | src/config/config.c:178-179 | of a line longer than the buffer each 1023 characters are taken for a line of their own |
| ConfigReading.SavedText | src/config/config.c:213-255 | the text that is saved, line by line |
| ConfigSpec.LoadLine | src/config/config.c:178-206 | a line that fits the buffer is applied as a whole, wherever it stands |
| ConfigSpec.LoadComment | src/config/config.c:74-77 | a comment line changes nothing |
| ConfigSpec.LoadSave | src/config/config.c:213-255 | loading what was saved sets every saved item, in order, to the value it had |
| ConfigSpec.SetAllGets | src/config/config.c:294-398 | every key set reads as it was set, and no other key changes |
| ConfigSpec.LoadKeepsOk | src/config/config.c:168-211 | whatever a file sets satisfies the conditions on keys and values |
| ConfigSpec.LoadInPiece | src/config/config.c:178-206 | every string, double and boolean that a file sets fits with its key into one piece of 1023 characters |
| ConfigSpec.SavedSurvivesExactly | src/config/config.c:168-255 | saving and loading gives every item back if and only if all keys and values satisfy the conditions and no line is longer than the buffer |
| ConfigSpec.SettersKeepKeysDistinct | src/config/config.c:294-398 | setting a key never gives it a second item |
| ConfigSpec.DefaultsThatChange | src/config/config.c:440-510 | three registered defaults come back as something else: an address, a path and a number kept as text; and so does an empty string |
| Config.ParseConfigLine | src/config/config.c:68-120 | the character loops compute the specified parse |
| Config.ReadLine | src/config/config.c:178-179 | one read ends after the first newline or when the buffer is full |
| Config.ConfigSystem.FindItem | src/config/config.c:7-14 | finds the first item with the key |
| Config.ConfigSystem.Put | src/config/config.c:294-398 | overwrites value and type of an existing item, keeping its description, or appends a new one |
| Config.ConfigSystem.Expand | src/config/config.c:53-65 | doubling the array keeps the items |
| Config.ConfigSystem.GetInt | src/config/config.c:258-264 | returns the value if the key holds an integer, else the default |
| Config.ConfigSystem.GetBool | src/config/config.c:267-273 | returns the value if the key holds a boolean, else the default |
| Config.ConfigSystem.GetString | src/config/config.c:276-282 | returns the value if the key holds a string, else the default |
| Config.ConfigSystem.LoadFrom | src/config/config.c:168-211 | makes the specified changes for the text of the file |
| Config.ConfigSystem.SaveTo | src/config/config.c:214-255 | produces the specified text |
| BitmapSpec.BlocksForExactly | src/index/bitmap_index.c:6-8 | the number of blocks covers the bits if and only if the computation does not wrap in 32 bits |
| BitmapSpec.SetRows | src/index/bitmap_index.c:39-48 | setting a bit adds exactly its row and keeps the unused bits zero |
| BitmapSpec.ClearRows | src/index/bitmap_index.c:51-60 | clearing a bit removes exactly its row |
| BitmapSpec.AndRows | src/index/bitmap_index.c:74-91 | block-wise and is intersection, for different lengths too |
| BitmapSpec.OrRows | src/index/bitmap_index.c:94-122 | block-wise or is union, for different lengths too |
| BitmapSpec.NotRows | src/index/bitmap_index.c:125-147 | block-wise not with the last block masked is the complement within the length |
| BitmapSpec.Canonical | src/index/bitmap_index.c:139-144 | only one bitmap of a given length stands for a given set |
| BitmapSpec.DeMorganExactly | src/index/bitmap_index.c:74-147 | De Morgan's laws hold block for block if and only if the lengths are equal |
| BitmapSpec.PopTotalCountsRows | src/index/bitmap_index.c:351-355 | the population counts of the blocks add up to the number of rows |
| BitmapSpec.ResizeRows | src/index/bitmap_index.c:161-181 | growing a bitmap keeps its set, and resizing it to nothing empties it |
| BitmapSpec.InsertExactly | src/index/bitmap_index.c:229-288 | an insertion adds its row to its value's rows and changes no other value; the row id 2^32-1 is refused and empties every bitmap |
| BitmapSpec.RowsTaken | src/index/bitmap_index.c:229-288 | row ids up to 4294967231 are taken under their value alone; 4294967295 is refused and empties everything |
| BitmapSpec.RunExactly | src/index/bitmap_index.c:229-288 | after any run every bitmap has the index's length and holds exactly the rows inserted under its value since everything was last emptied |
| BitmapSpec.NothingIsLost | src/index/bitmap_index.c:229-288 | as long as the wrapping row id does not occur, a row is found under a value if and only if it was inserted under it |
| Bitmap.BitArray.Set | src/index/bitmap_index.c:39-48 | sets the bit in place; false exactly past the end |
| Bitmap.BitArray.Clear | src/index/bitmap_index.c:51-60 | clears the bit in place; false exactly past the end |
| Bitmap.BitArray.Test | src/index/bitmap_index.c:63-71 | membership in the set |
| Bitmap.BitArray.Intersect | src/index/bitmap_index.c:74-91 | the block loop builds the intersection |
| Bitmap.BitArray.Union | src/index/bitmap_index.c:94-122 | the block loops build the union |
| Bitmap.BitArray.Complement | src/index/bitmap_index.c:125-147 | the block loop and the mask build the complement |
| Bitmap.BitArray.Count | src/index/bitmap_index.c:351-355 | the loop counts the rows |
| Bitmap.BitmapIndex.Expand | src/index/bitmap_index.c:161-181 | every bitmap is replaced by its resized copy |
| Bitmap.BitmapIndex.Insert | src/index/bitmap_index.c:229-288 | makes the specified step |
| Bitmap.BitmapIndex.Query | src/index/bitmap_index.c:291-311 | returns a copy with exactly the rows of a known value, and nothing for an unknown one |
| Bitmap.BitmapIndex.GetValues | src/index/bitmap_index.c:314-361 | lists every value with the number of its rows |
| HashIndex.Index.Get | src/index/hash_index.c:135-158 | finds a key if and only if it is in the map, and returns its value |
| HashIndex.Index.Insert | src/index/hash_index.c:95-132 | updates the map at one key, in place or by head insertion, and keeps keys unique, in their buckets and counted |
| HashIndex.Index.Delete | src/index/hash_index.c:161-189 | removes one key from the map, unlinking in mid-chain or at the head |
| HashIndex.Index.Unlink | src/index/hash_index.c:173-187 | taking a node out of its chain leaves every other one where it was |
| HashIndex.HashInNumbers | src/index/hash_index.c:6-12 | the bucket of a five-byte key, one byte of which is negative as a character |
| BloomFilter.OrSetsBit | src/index/bloom_filter.c:139-144 | or-ing one bit into one byte sets exactly that bit |
| BloomFilter.XorBits | src/index/bloom_filter.c:5-66 | the exclusive or of the hash functions, bit by bit |
| BloomFilter.PositionsInNumbers | src/index/bloom_filter.c:78-92 | the first hash of two keys in numbers, and the double hash behind all positions from the fourth on |
| BloomFilter.Filter.Add | src/index/bloom_filter.c:130-148 | afterwards the bits set are exactly the positions of all keys added |
| BloomFilter.Filter.Contains | src/index/bloom_filter.c:151-170 | reports a key if and only if all its positions are taken; so every key added since the last reset is reported |
| BloomFilter.Filter.Reset | src/index/bloom_filter.c:173-181 | forgets all keys |
| BinlogSpec.WriteRetains | src/replication/replication.c:483-554 | in the manager's records a write puts its event last, and rotation drops only the oldest file, only when there are as many archives as allowed |
| BinlogSpec.WriteEffect | src/replication/replication.c:483-554 | an event of 40 bytes goes to the current file, after a rotation if that has reached its size; what succeeds and what the files are then |
| BinlogSpec.WritesAreNumbered | src/replication/replication.c:288-312 | every write takes one id, and the id of an event is the number of its write |
| BinlogSpec.RunKeepsInv | src/replication/replication.c:483-554 | in every reachable state the archives are within their number, each has reached the size limit by less than one event, and the current file has not passed it, as far as recorded |
| BinlogSpec.RotateFaithful | src/replication/replication.c:511-554 | if the files hold what is recorded, they do so after a rotation if and only if it does not delete a file whose name is recorded again |
| BinlogSpec.WriteFaithful | src/replication/replication.c:483-554 | the same for a whole write, whatever fails in it |
| BinlogSpec.RunFaithfulExactly | src/replication/replication.c:483-554 | the files hold exactly what is recorded after every write of a run if and only if no rotation deletes a file whose name is recorded again |
| BinlogSpec.RunRetainsSuffix | src/replication/replication.c:288-312 | whatever failed before, the records are a gapless suffix of the events written, with increasing ids, and all of them unless the archives are full; on disk is exactly what is recorded, if no rotation deleted a file recorded again |
| BinlogSpec.FreshNamesNeverUnlink | src/replication/replication.c:525-529 | if no rotation falls into the second of a file still recorded, none deletes a file recorded again |
| BinlogSpec.SameSecondLosesEvents | src/replication/replication.c:525-546 | three successful writes in one second that leave nothing on disk |
| Binlog.BinlogManager.Rotate | src/replication/replication.c:511-554 | archives a copy of the current record, opens the file named by the second, shifts out the oldest and removes its file, as specified |
| Binlog.BinlogManager.WriteEvent | src/replication/replication.c:483-509 | makes the specified step, also when opening or writing fails |

## Left out

- B+ tree splitting, merging, borrowing and creation order: the split counts moved entries twice and reads a separator from a slot just cleared (src/index/b_plus_tree.c:133-153, 180), and merging has parts that are stubs.
- BPlusTree.BTree.InsertPair: stops where a full leaf would be split, for that reason; the tree is then unchanged.
- BPlusTree.BTree.DeleteKey: stops where an emptied leaf would borrow from or merge with a sibling; the binding is removed.
- RTreeSpec.SafeRunQueries: for runs in which every step was safe; RTreeAnswers.RunAnswersExactly says what the first step that is not does, and later steps may mend a box by chance.
- RTree areas are real numbers, so the rounding of floating point is not modelled; `r_tree_delete` only reports failure.
- TransactionSpec.RunIsConflictFree: says nothing of intention locks, which the code grants beside exclusive ones.
- Undo and redo log contents, and deadlock detection, which always answers no (src/transaction/transaction.c:345-349).
- The engine layer of the stores: table names, row versions, value sizes per column type, the second row counter of the storage manager, `value_count` of a column, and the begin, commit and rollback functions, which only set flags.
- StoreSpec.SelectRelated: a deleted row reads as a row of NULLs in the column engine, as the source does.
- Transaction.TransactionManager.AcquireLock: makes a record for each of the two lists, where the source links one node into both.
- RowStore.RowTable.InsertRow: requires a row object the table does not hold yet, as the table takes it over and frees it.
- RowStore.RowTable.InsertBatch: requires the same of every row of the batch.
- RowStore.RowTable.UpdateRow: requires the same of the new row.
- MemoryCache.LruCache.Clear: the loop that frees the items is left out, as freeing is.
- MemoryCache.LruCache.Set: failure of the memory pool is not modelled, nor is wrap-around of the 64-bit sizes.
- MemoryEngine.MemoryTable.Select: returns the stored row; the source copies 64 bytes of each value.
- Lsm.MemTable.Put: requires sizes whose sum does not wrap in 32 bits.
- Lsm.LsmTree.Insert: requires the same.
- A scan that needs bytes past those loaded ends the look-up as an overrun; what the source then reads is not modelled.
- LSM compaction, a stub; deletion, which inserts an empty value that look-ups then find; and which of several values of one key is the newest.
- ConfigSpec.SavedSurvivesExactly: for numbers whose lines fit the buffer and descriptions that fit and have no newline; what the rest of such a line is taken for is not worked out.
- How a double is printed and read; a double is its text. Strings that are NULL, which the setters cannot copy.
- BitmapSpec.InsertExactly: row ids from 2^32-64 to 2^32-2, for which the number of blocks wraps, are excluded.
- BitmapSpec.RunExactly: excludes the same row ids.
- BitmapSpec.NothingIsLost: excludes the same row ids.
- Bitmap.BitmapIndex.Insert: excludes the same row ids.
- The growth of the bitmap index's item array, and row counts as 32-bit numbers.
- BloomFilter.Filter.Contains: for at most 16 hash functions, which is all the source has room for, and sizes whose byte count does not wrap.
- Files of the binary log that were there before it was opened, and all other replication.
- The three linked-list fields of the lock manager are sequences; in-place relinking is shown for the cache, the in-memory engine and the hash index.
- Allocation failure, freeing, the memory pool, sockets, client, logging, audit, backup, monitoring, start-up, metadata, authorization, optimizer and procedures.
