# A verified model of the ITCH feed handler

The feed handler receives NASDAQ ITCH 5.0 messages in MoldUDP64 packets from two multicast feeds,
merges and checks their sequence numbers, parses them, and keeps one price-level book per symbol
in eight shards. This project models its data structures and its lock-free protocols in Dafny and
proves what they are for: the order index is a finite map, the book is a price-time priority
queue, the queues lose and duplicate nothing, a quote is torn only after exact multiples of 2^31
writes, a session reset forgets the past. Where the code falls short of that, the exact condition
is proved instead.

What the program updates in place is a class over arrays here (`OrderMap`, `OrderPool`,
`Level2Book`, `ShardWorker`, `Dedup`, `FeedMergerThread`, `TrackerCell`, `Histogram`). Each method is proved to compute a
function on values, and the theorems are about those functions. What two threads do together is
a state machine whose steps are the atomic accesses, under sequential consistency, with a ghost
history of what was pushed, popped, stored or injected.

## How it is built

| file | subject |
|---|---|
| `Words`, `Wire` | wrapping counters, ring slots, big-endian and host-order integers |
| `RobinHood`, `OrderMap` | the open-addressing order index: the invariant, then the table in place |
| `OrderPool` | the slab of orders and its free stack |
| `BookModel` | the handlers of a book as total functions, stale level indices included |
| `BookSafety`, `BookCharges` | what every run keeps, whatever references arrive |
| `LevelList`, `PriceQueues`, `LadderView`, `BookRefinement` | the reference book (price to queue of orders) and how a concrete book stands for one |
| `HandlerRefinement`, `AmendRefinement`, `BrokenBooks`, `StaleMoves`, `StaleLevels`, `BookTheorems`, `WorstEndRuns` | each handler follows the reference book exactly when the touched order names its own level, and otherwise leaves a book that stands for none; runs; best bid and offer |
| `SharedPool` | books of a shard that share pool and index do not disturb each other |
| `Level2Book` | the book in place |
| `ShardModel`, `ShardReset`, `ShardRange`, `ShardOverrun`, `ShardTheorems`, `ShardRouting`, `ShardWorker` | dispatch, session reset, whole runs of a shard with all its books, and the way from the feed to the shards |
| `SpscQueue`, `RecoveryRing`, `SeqLock` | the lock-free protocols |
| `DedupWindow`, `FeedMerger`, `SequenceTracker` | sequence numbers |
| `ItchParser`, `RetransmitRequest` | framing, message layouts, request header |
| `LatencyHistogram`, `BookSnapshot`, `SnapshotCuts` | percentiles, snapshot files, whole and cut |

## Where the code and its comments disagree

- `level_idx` of an order is written when the order is added and is not corrected when levels
  shift. The handlers are modelled as they are. `StaleLevels` gives, for delete, reduce and
  replace, the exact condition under which the handler follows the reference book, and
  `WorstEndRuns.StaleRun` gives two bids and a delete after which the quoted bid is the one that
  was deleted.
- An add does not check whether its reference is in use. `StaleLevels.AddRefinesIff` gives the
  condition under which it follows the reference book.
- The comment in `bucket_for` says that octave 0 starts at 256; the code gives octave 1 to the
  first values above 255. `LatencyHistogram.BucketInRangeIff` gives the latencies whose bucket
  index is inside the array.
- The comment in `DedupWindow` says that the window width is 128; an unseen number is certain to
  pass only when it is at most 64 behind the largest accepted one, because the window moves in
  blocks of 64.
- The comment at the push of a recovered packet allows for a queue that fills between the check
  and the push. `RecoveryRing.PushingKept` shows that it cannot.
- The comment above `inject_recovered_packet` says that a recovered packet is never written into a slot
  that is being read (include/network/packet_ring.hpp:152-153). That holds while the index is
  queued. The parser reads the slot after the index was popped and passed on, and by then the
  capacity check no longer protects it. `RecoveryRing.EveryFetch` says exactly when the parser
  still finds the packet, and `RecoveryRing.Overwritten` gives a run in which it finds another.
- The book slab may only be asked for locate codes of its own shard
  (include/orderbook/order_book_pool.hpp:63-65), but the router sends directory messages and trading
  actions to all shards, and each of them looks up its own book under the foreign locate code.
  `ShardRouting.EverySymbolKnown` says what activity and trading status follow, and
  `ShardRouting.OwnStatusIff` when a symbol's status is still its own.
- A snapshot buffer is doubled at most once per book and keeps its size. `BookSnapshot.RoundTrip`
  gives the books that come back.
- A snapshot file is read without looking at how much of it is there. `SnapshotCuts.CutFile` gives
  what a file that ends anywhere restores, for every book, and `SnapshotCuts.CutReturnsIff` when
  the book that it ends in comes back. `SnapshotCuts.FirstBlanked` and
  `SnapshotCuts.NeighbourReturns` are two cuts after which it does not.

## Model

| member | source | states |
|---|---|---|
| `OrderIndex.HashInRange` | include/orderbook/order_map.hpp:59-63 | the Fibonacci hash of every id, reduced to a word and shifted, is a slot of the table |
| `RobinHood.Reach` | src/orderbook/order_map.cpp:59-70 | in a table that keeps the invariant, every slot from an entry's home up to the entry is occupied and its distance is at least the steps from that home |
| `RobinHood.EarlyExitSound` | src/orderbook/order_map.cpp:62-63 | when no slot before step j holds the key and slot j is empty or its entry is nearer its home than j, the key is nowhere in the table |
| `RobinHood.CarryRoom` | src/orderbook/order_map.cpp:44-51 | while some slot is empty, the distance of a carried entry stays below the number of slots |
| `RobinHood.InsertSwaps` | src/orderbook/order_map.cpp:44-51 | a swap keeps exact distances, chaining, unique keys and the pairs of table and carried entry together, and moves nearer to an empty slot |
| `RobinHood.InsertPasses` | src/orderbook/order_map.cpp:50-51 | passing an entry at least as far from home keeps the same |
| `RobinHood.InsertPlaces` | src/orderbook/order_map.cpp:30-35 | placing in the empty slot ends with a table for the map with the new pair, and the key was not in it before |
| `RobinHood.InsertHits` | src/orderbook/order_map.cpp:37-41 | meeting the key ends with a table for the map with its value replaced, and the key was in it before |
| `RobinHood.HoleMoves` | src/orderbook/order_map.cpp:90-102 | pulling the next entry back keeps exact distances, chaining and the remaining pairs, and the hole comes nearer to an empty slot |
| `RobinHood.HoleCloses` | src/orderbook/order_map.cpp:95-98 | blanking the hole before an empty slot or an entry at home restores the full invariant |
| `RobinHood.FewKeysRoomy` | src/orderbook/order_map.cpp:27-52 | fewer keys than slots, and fewer than 65536, leave an empty slot and no stored distance at 65535 |
| `OrderIndex.OrderMap.constructor` | src/orderbook/order_map.cpp:7-11 | a new table stands for the empty map |
| `OrderIndex.OrderMap.Reset` | src/orderbook/order_map.cpp:13-17 | every slot is blank and the map is empty |
| `OrderIndex.OrderMap.Insert` | src/orderbook/order_map.cpp:19-53 | the table stands for the old map with the pair added or replaced, and `size` is the number of keys |
| `OrderIndex.OrderMap.Find` | src/orderbook/order_map.cpp:55-71 | the stored value when the key is in the map, a miss otherwise |
| `OrderIndex.OrderMap.Erase` | src/orderbook/order_map.cpp:73-106 | true exactly when the key was in the map; the table stands for the map without it |
| `OrderIndex.Probe` | src/orderbook/order_map.cpp:55-71 | the probe loop ends at the key's slot exactly when the key is present, in every table whose stored distances are below 65535, a full one included |
| `OrderIndex.Store` | src/orderbook/order_map.cpp:24-53 | the insert loop ends with the invariant and the updated map |
| `OrderIndex.ShiftBack` | src/orderbook/order_map.cpp:88-102 | in every table with an empty slot the backward shift ends with the invariant and the map without the key |
| `OrderPools.OrderPool.constructor` | src/orderbook/order_pool.cpp:6-22 | the free stack hands out slot 0 first |
| `OrderPools.OrderPool.Alloc` | src/orderbook/order_pool.cpp:24-35 | pops the top slot and unlinks its order, or changes nothing when exhausted |
| `OrderPools.OrderPool.Release` | src/orderbook/order_pool.cpp:45-48 | pushes the slot |
| `OrderPools.OrderPool.Reset` | src/orderbook/order_pool.cpp:37-43 | the free stack is exactly the initial one |
| `BookSafety.RemovalInRange` | src/orderbook/level2_book.cpp:198-205 | a level whose count reaches 0 on a removal is below the depth, so no removal runs on an empty ladder, even through a stale index |
| `BookSafety.AddGuarded` | src/orderbook/level2_book.cpp:147-178 | adding, with a used reference too, keeps indexed slots pairwise distinct and unfree, the free stack free of repeats, and every count guarded |
| `BookSafety.ReduceGuarded` | src/orderbook/level2_book.cpp:183-207 | the same for a reduction by any amount |
| `BookSafety.DeleteGuarded` | src/orderbook/level2_book.cpp:233-251 | the same for a deletion |
| `BookSafety.ReplaceGuarded` | src/orderbook/level2_book.cpp:274-344 | the same for a replacement, duplicates included |
| `BookSafety.RunGuarded` | src/orderbook/level2_book.cpp:147-344 | after every run of messages from a new book: all stored indices in range, no slot both indexed and free, no slot indexed twice, keys and free slots no more than the pool of at most 2,000,000 |
| `BookCharges.ApplySound` | src/orderbook/level2_book.cpp:147-344 | every message, even one that reaches an order of another book, keeps pool and index in agreement; and after fewer than 2^32-1 messages since the ladders were blank it removes no level outside the ladder |
| `BookCharges.GuardedInRange` | src/orderbook/level2_book.cpp:198-205 | on a book with its own pool and index no message at all removes a level outside the ladder |
| `BookSafety.ReplaceReusesSlot` | src/orderbook/level2_book.cpp:308-343 | a full replacement gets the slot it freed, so the pool cannot be exhausted; only a full ladder loses the order |
| `LevelList.LinkListed` | src/orderbook/level2_book.cpp:115-127 | appending at the tail keeps the doubly linked list in time order, its count the length and its total the sum modulo 2^32 |
| `LevelList.UnlinkListed` | src/orderbook/level2_book.cpp:129-142 | unlinking any position leaves the list of the others in order, with count and total right |
| `LadderView.LevelAppears` | src/orderbook/level2_book.cpp:64-98 | opening a level keeps the ladder strictly sorted and adds exactly one price to what it stands for |
| `LadderView.LevelGoes` | src/orderbook/level2_book.cpp:100-109 | closing a level keeps the ladder sorted and removes exactly that price |
| `HandlerRefinement.AddRefines` | src/orderbook/level2_book.cpp:147-178 | adding a reference that the book does not hold, whatever the level indices of other orders, appends it to the queue of its price, or changes nothing when the pool or the ladder is full |
| `HandlerRefinement.DropRefines` | src/orderbook/level2_book.cpp:233-251 | deleting an order that names its own level takes exactly it out of its queue |
| `AmendRefinement.ReduceRefines` | src/orderbook/level2_book.cpp:183-207 | reducing such an order lowers its quantity modulo 2^32 in place, and removes it at 0 |
| `AmendRefinement.AmendRefines` | src/orderbook/level2_book.cpp:291-306 | an in-place replacement keeps the queue position and changes only reference and quantity |
| `AmendRefinement.ReplaceRefines` | src/orderbook/level2_book.cpp:274-344 | replacement as a whole: in place at the same price and no more quantity, otherwise to the tail of the new price |
| `BrokenBooks.MiscountBreaks` | src/orderbook/level2_book.cpp:115-142 | a level whose count is not the length of the list at its head leaves a book that stands for no reference book |
| `BrokenBooks.UsedAddBreaks` | src/orderbook/level2_book.cpp:147-178 | so does an accepted add under a reference in use, because the older order loses its index entry |
| `StaleLevels.AddRefinesIff` | src/orderbook/level2_book.cpp:147-178 | an add follows the reference book if and only if its reference is unused or the add is dropped; otherwise the book stands for no reference book at all |
| `StaleLevels.DeleteRefinesIff` | src/orderbook/level2_book.cpp:233-251 | a deletion follows the reference book if and only if the order's level index points at its own price; otherwise the book stands for no reference book at all |
| `StaleLevels.ReduceRefinesIff` | src/orderbook/level2_book.cpp:183-207 | a reduction does so if and only if the index is current, or nothing is taken from an order that has quantity; otherwise no reference book fits |
| `StaleLevels.ReplaceRefinesIff` | src/orderbook/level2_book.cpp:274-344 | a replacement does so if and only if the index is current, or price and quantity stay the same, and besides the new reference is unused, or the same, or the order moves and is dropped for want of a level; otherwise no reference book fits |
| `StaleMoves.SpoiledAddBreaks` | src/orderbook/level2_book.cpp:308-343 | the second half of a replacement through a stale index: at whatever price the new order goes into the freed slot, or is dropped, the level that the old order was listed in fits no list of orders any more |
| `BookTheorems.BboIsBest` | src/orderbook/level2_book.cpp:358-370 | the bid is the highest price with orders in the reference book and the ask the lowest, each with the sum of its quantities modulo 2^32; zeros for an empty side |
| `BookTheorems.LaddersOrdered` | src/orderbook/level2_book.cpp:58-98 | in a book that follows a reference book, bid prices strictly fall and ask prices strictly rise from the first level on |
| `BookTheorems.InsertShift` | src/orderbook/level2_book.cpp:83-87 | after opening a level, an index still points at its price if and only if it is below the new position |
| `BookTheorems.RemoveShift` | src/orderbook/level2_book.cpp:100-109 | after closing a level, an index of a surviving level still points at its price if and only if it is below the closed one |
| `BookTheorems.StepRefines` | src/orderbook/level2_book.cpp:147-344 | every admissible message on a book that follows a reference book leads to a book that follows the next one, on a shared pool too |
| `BookTheorems.StepKeys` | src/orderbook/level2_book.cpp:147-344 | a message changes the index exactly as it changes the live references of its own reference book; those of other books stay |
| `BookTheorems.StepNoLeak` | src/orderbook/level2_book.cpp:147-344 | with unused new references, no slot is lost: every slot stays indexed or free |
| `BookTheorems.RunRefines` | src/orderbook/level2_book.cpp:147-344 | every admissible run from a new book ends in a book that follows the reference run, which depends on the messages and the pool size alone, with the same live references and no slot lost |
| `WorstEndRuns.WorstEndRefines` | src/orderbook/level2_book.cpp:64-109 | a run that opens and empties levels only at the worst price keeps every order current and follows the reference book with no condition on indices |
| `WorstEndRuns.StaleRun` | src/orderbook/level2_book.cpp:233-251 | two bids and a delete after which the top quote is the deleted order's and no reference book fits |
| `SharedPool.StepPrivate` | src/orderbook/level2_book.cpp:147-344 | a message writes only orders of its own book and free slots |
| `SharedPool.NeighbourKept` | src/orderbook/level2_book.cpp:147-344 | every other book on the same pool and index still follows its own reference book |
| `Level2Books.FindLevelIn` | src/orderbook/level2_book.cpp:49-56 | the scan finds the level of a price, or the depth |
| `Level2Books.InsertLevelIn` | src/orderbook/level2_book.cpp:64-98 | the shift in place is the insertion behind the levels with a higher bid, or a lower ask, and in front of all others, or nothing on a full ladder |
| `Level2Books.RemoveLevelIn` | src/orderbook/level2_book.cpp:100-109 | the shift in place is the removal, with the last used level blanked |
| `Level2Books.LinkTailIn` | src/orderbook/level2_book.cpp:115-127 | linking in place, in the pool and in the level |
| `Level2Books.UnlinkIn` | src/orderbook/level2_book.cpp:129-142 | unlinking in place |
| `Level2Books.Level2Book.constructor` | src/orderbook/level2_book.cpp:9-22 | two blank ladders of depth 0 over the given pool and index |
| `Level2Books.Level2Book.Clear` | src/orderbook/level2_book.cpp:27-41 | both ladders are blank; pool and index are as they were |
| `Level2Books.Level2Book.OnAdd` | src/orderbook/level2_book.cpp:147-178 | the arrays, the pool and the index, shared or not, hold what the add function gives, and the invariant of every run is kept |
| `Level2Books.Level2Book.OnReduce` | src/orderbook/level2_book.cpp:183-207 | the same for a reduction, unknown references included |
| `Level2Books.Level2Book.OnDelete` | src/orderbook/level2_book.cpp:233-251 | the same for a deletion |
| `Level2Books.Level2Book.OnReplace` | src/orderbook/level2_book.cpp:274-344 | the same for a replacement; a full replacement leaves exactly the state of a deletion followed by an addition, overflow included |
| `Level2Books.Level2Book.Relocate` | src/orderbook/level2_book.cpp:319-342 | the second half of a full replacement takes the freed slot and does what an addition does |
| `Level2Books.Level2Book.Bbo` | src/orderbook/level2_book.cpp:358-370 | reads the quotes of the current state |
| `Level2Books.Level2Book.IndexNeverFull` | include/common/constants.hpp:8-9 | an index with more slots than the pool limit has an empty slot, for a book on a shared pool too |
| `Level2Books.Level2Book.SmallPoolHasRoom` | src/orderbook/order_map.cpp:27-52 | with fewer than 65536 orders in the pool the index has the room that its methods need, for a book on a shared pool too |
| `ShardReset.ApplyAlike` | src/orderbook/level2_book.cpp:147-344 | two books that differ only in orders that no list and no index reaches stay so under every message |
| `ShardReset.RunSame` | src/workers/shard_worker.cpp:68-154 | two shards that differ only in unreachable orders publish the same quotes over every run |
| `ShardReset.RunIdle` | src/workers/shard_worker.cpp:68-154 | over every run, an inactive book is in its constructor state |
| `ShardReset.ResetIsNew` | src/workers/shard_worker.cpp:70-75 | a reset leaves exactly a new shard, up to what old orders hold |
| `ShardTheorems.EveryShardRunSound` | src/workers/shard_worker.cpp:68-154 | over every run of a shard, whatever references arrive at whichever book: no slot indexed twice, none indexed and free, keys and free slots no more than the pool; and with fewer than 2^32 events between resets no removal leaves its ladder |
| `ShardRange.EveryRemovalInRange` | src/orderbook/level2_book.cpp:100-109 | with fewer than 2^32 events between resets, no level outside a ladder is charged more often than there were events, so no book of the shard removes a level that is not in use |
| `ShardOverrun.TurnsInRangeIff` | src/orderbook/level2_book.cpp:198-205 | one book adds an order and another one deletes it, n times over: every removal stays inside its ladder if and only if n is below 2^32 |
| `ShardTheorems.ResetErasesHistory` | src/workers/shard_worker.cpp:57-75 | after any run and a reset the shard is a new one over used memory, and any later run publishes what it would on a brand-new worker; removals stay inside their ladders on both sides under the bound above |
| `ShardTheorems.DispatchFollows` | src/workers/shard_worker.cpp:68-154 | one event of any kind takes a shard whose every symbol follows its reference book to another, and publishes at most the quotes of its own symbol |
| `ShardTheorems.EveryShardRun` | src/workers/shard_worker.cpp:68-154 | over every admissible run of all symbols of a shard, with session changes and resets, each symbol follows its own reference book, and an event publishes exactly when it reaches a book, namely the highest bid and the lowest ask of that reference book |
| `ShardWorkers.ShardWorker.constructor` | src/workers/shard_worker.cpp:9-18 | 8192 books over one pool and one index, all inactive: the state is that of a new shard |
| `ShardWorkers.ShardWorker.ActivateBook` | src/workers/shard_worker.cpp:44-55 | marks one book active and changes nothing else |
| `ShardWorkers.ShardWorker.ClearAllBooks` | src/workers/shard_worker.cpp:57-66 | every active book is blank and inactive, every inactive one is as it was |
| `ShardWorkers.ShardWorker.ResetSession` | src/workers/shard_worker.cpp:70-75 | active books, pool and index are reset in place |
| `ShardWorkers.ShardWorker.DeliverOrder` | src/workers/shard_worker.cpp:115-146 | one handler of one book runs on the shared pool and index, no other book object changes, and its quotes are published |
| `ShardWorkers.ShardWorker.Dispatch` | src/workers/shard_worker.cpp:68-154 | the new state of books, pool, index, flags and statuses, and what is published, for every kind of message, session state and book state; `ShardRouting` says from the messages alone what those flags, statuses and publications are |
| `ShardWorkers.ShardWorker.SmallPoolHasRoom` | src/orderbook/order_map.cpp:27-52 | the same in every state that the messages of all books of a shard lead to |
| `ShardWorkers.ShardWorker.IndexNeverFull` | include/common/constants.hpp:8-9 | an index with more slots than the pool limit has an empty slot in every such state |
| `ShardWorkers.ShardWorker.Run` | src/workers/shard_worker.cpp:33-42 | the loop over the queue, on a pool of fewer than 65536 orders: state and quotes after any list of messages are those of the run, with no condition on the index |
| `ShardRouting.ReceivedBy` | src/routing/shard_router.cpp:18-57 | an order message goes to the one shard of its locate code modulo 8, a directory message, a trading action or a reset to all eight |
| `ShardRouting.OneBookEach` | include/orderbook/order_book_pool.hpp:18-23 | locate codes below 65536 that agree modulo 8 have books inside the slab, and the same one only if they are equal |
| `ShardRouting.BookOfLocate` | include/orderbook/order_book_pool.hpp:25-27 | after every feed, the book that a message of the shard's own finds is the one of its locate code |
| `ShardRouting.EverySymbolKnown` | src/workers/shard_worker.cpp:68-97 | after every feed, a symbol is active exactly when a directory message for one of the eight symbols around it or an added order of its own activated it since the last reset, and its trading status is the state of the last trading action for one of those eight that found it active since then, 72 without one |
| `ShardRouting.PublishesIff` | src/workers/shard_worker.cpp:99-146 | after every feed, a message publishes exactly when it is an order message in an open session for an active symbol or an addition, once, under its own locate code and time |
| `ShardRouting.NeighbourSet` | src/routing/shard_router.cpp:18-36 | a directory message and a trading action for one symbol set the status of any symbol that shares its locate code divided by 8 |
| `ShardRouting.OwnStatusIff` | src/workers/shard_worker.cpp:93-97 | with given symbols in use, every feed leaves each of them the status that its own messages alone would give it, if and only if no two of them share their locate code divided by 8 |
| `SpscQueue.FillIsDistance` | include/concurrency/spsc_queue.hpp:22-55 | the wrapped differences of positions are the true counts of items, through 64-bit wrap-around |
| `SpscQueue.StoreSpares` | include/concurrency/spsc_queue.hpp:32 | the producer writes into no slot that holds an unread item |
| `SpscQueue.StepKeeps` | include/concurrency/spsc_queue.hpp:22-50 | every atomic step of either side keeps the invariant, and every return is explained: the popped item is the next pushed one, full and empty were true at the reload |
| `SpscQueue.EveryInterleaving` | include/concurrency/spsc_queue.hpp:22-50 | in every interleaving the popped items are a prefix of the pushed ones with at most the capacity between them |
| `SpscQueue.WaitFree` | include/concurrency/spsc_queue.hpp:22-50 | a call ends after at most three more steps of its own thread, with its result on the last one, whatever the other thread does |
| `SpscQueue.PushAlone` | include/concurrency/spsc_queue.hpp:22-35 | from every state, an undisturbed push succeeds if there is room and fails otherwise, however old the cached position is |
| `SpscQueue.PopAlone` | include/concurrency/spsc_queue.hpp:37-50 | likewise a pop gives the oldest item, or fails on an empty queue |
| `RecoveryRing.FillsUnqueuedSlot` | include/network/packet_ring.hpp:169-173 | a recovered packet is written into no slot whose index is still queued |
| `RecoveryRing.PushingKept` | include/network/packet_ring.hpp:174-183 | the push after the capacity check never fails |
| `RecoveryRing.MoveKept` | include/network/packet_ring.hpp:156-187 | every step of injector, merger and parser keeps the invariant, through the wrap of the 16-bit write counter, and a pop returns the next index in order |
| `RecoveryRing.EveryRingRun` | include/network/packet_ring.hpp:156-187 | the same over every interleaving |
| `RecoveryRing.InjectBegins` | include/network/packet_ring.hpp:165-168 | an injection begins if fewer than 1024 indices are queued and is counted as dropped otherwise |
| `RecoveryRing.InjectWaitFree` | include/network/packet_ring.hpp:169-183 | it ends after at most six more steps of its own, whatever the others do, and is not dropped any more |
| `RecoveryRing.FetchIsLatest` | include/workers/parser_thread.hpp:76-83 | the parser that reads the slot of the index popped at position k finds the latest packet filled at k, k + 1024, k + 2048 and so on |
| `RecoveryRing.EveryFetch` | include/network/packet_ring.hpp:152-187 | over every interleaving: that is the packet injected at k as long as no fill has reached k + 1024, and, when no two packets are equal, only then |
| `RecoveryRing.Overwritten` | include/network/packet_ring.hpp:152-153 | for every two packets there is a run in which the parser finds the second where the first was injected |
| `SeqLock.StepKeeps` | include/concurrency/seqlock.hpp:21-51 | every word written by the writer or read by a reader keeps the invariant |
| `SeqLock.LoadIsWhole` | include/concurrency/seqlock.hpp:32-51 | a load that returns has exactly the words of the store that was last complete when it began |
| `SeqLock.NeverTorn` | include/concurrency/seqlock.hpp:21-51 | the same over every run with one writer and any number of readers, when the number of stores that complete during the load is not a positive multiple of 2^31 |
| `SeqLock.TornAfterWrap` | include/concurrency/seqlock.hpp:46 | for every positive multiple of 2^31 stores during one load there is a run that returns a mixture |
| `SeqLock.ReturnsOnMultiple` | include/concurrency/seqlock.hpp:46 | a load returns only when the stores that completed during it are a multiple of 2^31, none included, and no store is under way |
| `SeqLock.ReturnsIff` | include/concurrency/seqlock.hpp:45-49 | a reader that has all its words returns them if and only if no store is under way and the stores that completed meanwhile are a multiple of 2^31; otherwise it starts over |
| `SeqLock.BeginsIff` | include/concurrency/seqlock.hpp:35-37 | a reader gets past the first check if and only if no store is under way |
| `SeqLock.StoreAlone` | include/concurrency/seqlock.hpp:21-30 | an undisturbed store leaves exactly its value, for every number of words |
| `SeqLock.LoadAlone` | include/concurrency/seqlock.hpp:32-51 | an undisturbed load returns every word of the latest store |
| `SeqLock.AlwaysWholeIff` | include/concurrency/seqlock.hpp:21-51 | loads during which n stores complete are whole in every run if and only if n is not a positive multiple of 2^31 |
| `DedupWindow.CheckKeeps` | include/workers/feed_merger.hpp:27-49 | a number is accepted if and only if it is not below the base and not accepted before; the base stays a multiple of 64 and the bits stay the accepted numbers of the window |
| `DedupWindow.RecentNotRejected` | include/workers/feed_merger.hpp:27-49 | an unseen number at most 64 behind the largest accepted one is accepted |
| `DedupWindow.AcceptedOnce` | include/workers/feed_merger.hpp:27-49 | over every run each number is accepted at most once |
| `DedupWindow.NeverComesToRest` | include/workers/feed_merger.hpp:35-39 | for numbers above 2^64-65 the sliding loop's guard holds after any number of turns |
| `DedupWindow.Dedup.CheckAndMark` | include/workers/feed_merger.hpp:27-49 | the window in place: the verdict, the new window and the set of accepted numbers |
| `DedupWindow.Dedup.SlideTo` | include/workers/feed_merger.hpp:35-39 | the loop ends with the first window that reaches the number |
| `DedupWindow.Dedup.Reset` | include/workers/feed_merger.hpp:51-55 | nothing is accepted any more |
| `FeedMerger.Conservation` | src/workers/feed_merger.cpp:27-95 | over every interleaving: slots consumed = slots queued + duplicates + drops on a full queue, each counter being the number of slots with that fate, live slots likewise, the count of B-feed slots besides, and the merged queue is exactly the sent slots in order |
| `FeedMerger.AtMostOnce` | src/workers/feed_merger.cpp:88-94 | of two live packets with the same number, neither short nor a heartbeat, one is dropped as a duplicate |
| `FeedMerger.FirstSightPasses` | src/workers/feed_merger.cpp:88-94 | a number seen for the first time, at most 64 behind the largest, is not dropped as a duplicate |
| `FeedMerger.BypassesByBytes` | include/workers/feed_merger.hpp:129-143 | a packet bypasses the window if and only if it is shorter than 20 bytes, its bytes 10 to 17 are 0, or its bytes 18 and 19 are 255 |
| `FeedMerger.LiveByBytes` | src/workers/feed_merger.cpp:73-94 | such a live packet leaves the window alone and is never a duplicate; any other is marked in it under the number in bytes 10 to 17, and is a duplicate exactly when the window turned that away; what is no duplicate is dropped exactly when 65536 slots wait |
| `FeedMerger.FeedMergerThread.HandleLiveSlot` | src/workers/feed_merger.cpp:58-95 | one live slot: counters, window and queue after it, duplicates and a full queue included; by its bytes, whether the window is left alone, and otherwise that its number is marked and the drop is counted |
| `FeedMerger.FeedMergerThread.Push` | include/workers/feed_merger.hpp:145-148 | the slot is queued, or the drop is counted when 65536 slots wait for the parser |
| `SequenceTracker.Partition` | src/protocol/sequence_tracker.cpp:7-39 | over every run from s, the numbers from s to the current one are the disjoint union of the accepted ones and the reported gaps; the current one is the largest received |
| `SequenceTracker.AdvanceAtTop` | src/protocol/sequence_tracker.cpp:7-33 | at 2^64-1 the expected number is 0, and every other number is a gap |
| `SequenceTracker.CallsAddUp` | src/protocol/sequence_tracker.cpp:7-39 | calls are in-order ones plus the gap count plus the duplicate count |
| `SequenceTracker.TrackerCell.TryAdvance` | src/protocol/sequence_tracker.cpp:7-39 | the fields after one call, and true exactly for the next number |
| `SequenceTracker.TrackerCell.Reset` | src/protocol/sequence_tracker.cpp:41-49 | the start state at the given number |
| `Wire.DecodeEncode` | include/protocol/itch_messages.hpp:23-40 | big-endian reading inverts writing, for every width |
| `Wire.EncodeDecode` | include/protocol/itch_messages.hpp:23-40 | writing inverts reading, for every byte string |
| `Wire.FirstIsHighest` | include/protocol/itch_messages.hpp:23-40 | the first byte has the highest weight, for every width |
| `Wire.LastIsHighest` | src/recovery/book_snapshot.cpp:141-154 | in host order the last byte has |
| `ItchParser.LocalIff` | src/protocol/itch_parser.cpp:44-57 | a message is a function of its own bytes if and only if it has at least 3 bytes or is not of an always-known kind |
| `ItchParser.RecognisedIff` | src/protocol/itch_parser.cpp:57-326 | a message is recognised if and only if its type byte and its length are one of the known pairs, L, V, W, K, J and h at any length |
| `ItchParser.OrderKinds` | src/protocol/itch_parser.cpp:155-247 | which type bytes give which kind of order message |
| `ItchParser.EveryPacketSplits` | src/protocol/itch_parser.cpp:17-39 | every byte string is blocks behind their lengths, then a tail at which the loop stops |
| `ItchParser.SplitIsUnique` | src/protocol/itch_parser.cpp:17-39 | that split is the only one |
| `ItchParser.ParsesEveryBlock` | src/protocol/itch_parser.cpp:17-39 | parsing framed blocks and any stuck tail gives the recognised messages of all blocks, in order, and skips the others |
| `ItchParser.ParseInverts` | src/protocol/itch_parser.cpp:155-247 | parsing inverts the layouts of A, F, E, C, X, D and U messages, field by field |
| `ItchParser.RoundTrip` | src/protocol/itch_parser.cpp:7-42 | every list of order messages, framed and parsed, comes back |
| `ItchParser.PartByBytes` | src/protocol/moldudp64_parser.cpp:6-21 | nothing is read of a packet shorter than 20 bytes or with bytes 18 and 19 both 255; otherwise what follows the first 20 bytes |
| `ItchParser.Parse` | src/protocol/itch_parser.cpp:7-42 | the loop writes the first `max_msgs` of those messages, each with the receive time, and returns their number; nothing for a short packet or a heartbeat |
| `RetransmitRequest.BuildRequest` | src/recovery/retransmit_client.cpp:262-278 | the header reader finds the requested session, sequence number and count in the bytes that are sent; byte 18 is the high and byte 19 the low byte of the count |
| `RetransmitRequest.WriteNumber` | src/recovery/retransmit_client.cpp:272-276 | the shifting loop writes the big-endian number and leaves the session alone |
| `LatencyHistogram.BucketInRangeIff` | include/monitoring/latency_histogram.hpp:61-75 | the bucket index is inside the array if and only if the latency is below 2^23 ns or at least 2^32 ns |
| `LatencyHistogram.BucketMonotone` | include/monitoring/latency_histogram.hpp:61-75 | larger recordable latencies go to the same or a later bucket |
| `LatencyHistogram.FloorIsClose` | src/monitoring/latency_histogram.cpp:6-14 | the floor of a latency's bucket is not above it, exact below 256 ns and less than a sixteenth away above |
| `LatencyHistogram.FloorIsLeast` | src/monitoring/latency_histogram.cpp:6-14 | the floor of a bucket below 256 or from 272 on falls into that bucket, and every smaller latency into an earlier one |
| `LatencyHistogram.BucketsInUse` | include/monitoring/latency_histogram.hpp:61-75 | no latency falls into the buckets 256 to 271 |
| `LatencyHistogram.ScanStopsAt` | src/monitoring/latency_histogram.cpp:24-28 | the cumulative scan stops at the bucket of the latency with the asked rank |
| `LatencyHistogram.RankExists` | src/monitoring/latency_histogram.cpp:21-28 | every rank below the count has its latency |
| `LatencyHistogram.TargetIs` | src/monitoring/latency_histogram.cpp:21 | the asked rank is the one t with 100 t <= total * p < 100 (t + 1) |
| `LatencyHistogram.AskedValue` | src/monitoring/latency_histogram.cpp:21-28 | every percentage below 100 of a history that is not empty asks for a latency of it |
| `LatencyHistogram.Histogram.Record` | include/monitoring/latency_histogram.hpp:30-41 | count, maximum and every bucket are those of the extended history |
| `LatencyHistogram.Histogram.Percentile` | src/monitoring/latency_histogram.cpp:16-30 | below 100, the bucket floor of the latency at rank t of the sorted history, for the t with 100 t <= count * p < 100 (t + 1); the largest latency from 100 on, 0 for no history |
| `LatencyHistogram.Histogram.Reset` | src/monitoring/latency_histogram.cpp:32-37 | the history is empty |
| `BookSnapshot.BookReads` | src/orderbook/level2_book.cpp:375-419 | restoring a serialized book over another gives it the locate code, depths and shown levels, and leaves the rest of it alone |
| `BookSnapshot.OverwriteIs` | src/orderbook/level2_book.cpp:394-419 | level by level: up to the saved depth the saved levels, behind them the old ones, with the saved locate code and depths and everything else as it was |
| `BookSnapshot.BboRestored` | src/orderbook/level2_book.cpp:394-419 | a restored book quotes what the saved one did |
| `BookSnapshot.FileHead` | src/recovery/book_snapshot.cpp:141-143 | a file begins with the bytes H, C, T, I and eight bytes of the number of books |
| `BookSnapshot.RecordHead` | src/orderbook/level2_book.cpp:375-392 | a record begins with locate code, bid depth and ask depth, two bytes each, low byte first, and has 64 bytes for each level |
| `BookSnapshot.RoundTrip` | src/recovery/book_snapshot.cpp:141-198 | reading a written file restores, for every list of books and every list read into: a book comes back if and only if it fits the buffer after the doublings up to it, and the others stay as they are |
| `BookSnapshot.SmallBookReturns` | src/recovery/book_snapshot.cpp:141-198 | a book of at most 127 levels always comes back, with its quotes |
| `BookSnapshot.FirstBookReturnsIff` | src/recovery/book_snapshot.cpp:145-155 | the first book comes back if and only if it has at most 127 levels |
| `SnapshotCuts.CutFile` | src/recovery/book_snapshot.cpp:176-202 | of a file cut anywhere: it is refused if and only if the magic number is cut, and otherwise every book becomes what its record reads as: the whole record in front of the cut, nothing behind it, and at the cut its own first bytes and then the bytes of the last earlier record that reaches so far, or zeros |
| `SnapshotCuts.HoldsAfter` | src/recovery/book_snapshot.cpp:190-198 | behind any number of whole records every byte of the reused buffer is that of the last record that reaches it, or zero |
| `SnapshotCuts.OutsideTheCut` | src/recovery/book_snapshot.cpp:192-198 | books whose record is whole come back as from the whole file; books whose record is missing or was never written stay as they are |
| `SnapshotCuts.CutReturnsIff` | src/recovery/book_snapshot.cpp:192-198 | the book that the file ends in comes back if the bytes of its length that are there give its length and the stale bytes agree with its record in every byte of a field; unless it was the saved book before, only if |
| `SnapshotCuts.FirstBlanked` | src/recovery/book_snapshot.cpp:190-198 | with the file cut in or right behind the length of the first record, and at least 6 to be read there, the first book comes back with locate code 0 and no levels |
| `SnapshotCuts.NeighbourReturns` | src/recovery/book_snapshot.cpp:192-198 | with the file cut behind the length of a record as long as the one before it, the book comes back as its neighbour, quotes and locate code included |
| `BookSnapshot.Write` | src/recovery/book_snapshot.cpp:141-155 | the loop over the growing buffer writes that file |
| `BookSnapshot.Read` | src/recovery/book_snapshot.cpp:176-202 | the loop restores in place what the file says, however long the file is, and nothing on a wrong magic number |

## Left out

- Sockets, multicast, login, pcap tools, threads and affinity, logging, metrics, configuration, the symbol directory and session event codes: input and output, or only easy members.
- Weak memory orders: all protocols are modelled under sequential consistency.
- Failover: timing and the `failed_over_` flag are not modelled; the order in which slots arrive and how many of them the parser has taken are inputs, so the theorems hold for every polling order.
- The live ring's slot reuse: a slot is filled there before the full check; only the recovery ring is modelled.
- Full shard queues: the router drops messages then; `ShardRouting` is about the messages that come through.
- The quote publisher's reset beside shard writers: `SeqLock` has one writer.
- `SpscQueue`, `RecoveryRing`, `SeqLock`: step functions on values, not classes, because their calls interleave.
- OrderIndex.OrderMap.Find: no stored distance may be 65535, because the 16-bit probe distance wraps there; Insert and Erase need an empty slot besides, without which their loops do not end; ids are nonzero because 0 marks an empty slot.
- OrderIndex.OrderMap.Insert: the warning at three quarters of the capacity is not modelled.
- BookCharges.ApplySound: where 2^32 charges meet one level of a shared pool, a removal from an empty ladder leaves the ladder alone in the functions, and the code would write in front of it; the in-place handlers require that this does not happen. The bound on the events between resets is sufficient; `ShardOverrun.TurnsInRangeIff` gives runs of about twice its length that leave the ladder.
- ShardTheorems.EveryShardRun: messages must touch orders of their own symbol, use unused new references, and meet the level-index condition of `StaleLevels`.
- Level2Books.Level2Book.OnReduce: the drop and in-place counters of a book are not modelled.
- ShardWorkers.ShardWorker.Dispatch: room in the index and removals inside the ladder are required, as by the handlers, where `SmallPoolHasRoom` and `ShardRange` do not give them; latency recording and the symbol name are not modelled; a message for all shards acts on the slot that its locate code selects, see `ShardRouting`.
- DedupWindow.Dedup.CheckAndMark: the two words are sets of bit positions, and numbers above 2^64-65 are excluded, because the loop does not end for them.
- FeedMerger.FeedMergerThread.HandleLiveSlot: the counters do not wrap.
- SequenceTracker.Partition: numbers below 2^64-1, so that the expected number does not wrap; the time stamp of a gap is not modelled.
- ItchParser.Parse: bytes past the end of the packet read as 0; payload fields of messages that leave the books alone are not decoded.
- RetransmitRequest.BuildRequest: the connection check and the sending are not modelled.
- LatencyHistogram.Histogram.Record: one thread, and only latencies whose bucket is inside the array; `LatencyHistogram.BucketInRangeIff` says which ones those are.
- LatencyHistogram.Histogram.Percentile: the percentage is a real number, without floating-point rounding.
- BookSnapshot.Read: a word that the file holds only in part keeps the bytes that are there, as the C library in use stores them; file paths, the file that names the latest snapshot and renaming are not modelled.
