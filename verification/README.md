# Verified model of gtl's containers, memory management and thread pool

gtl is a C++ library of containers, allocators, smart pointers and threads. This project models its
pointer-level core in Dafny and proves what the code keeps over every call and every run:

- `hash_table.dfy` (with `hash_windows.dfy`, `hash_groups.dfy`, `hash_contents.dfy`, `hash_runs.dfy`, `powers.dfy`): the
  hash table whose elements all hang on one chain and whose buckets are windows onto it. The abstract view is, for every
  key, the sequence of its nodes; whole runs follow the sequence of elements.
- `list.dfy`, `slist.dfy` (with `doubly_list.dfy`, `singly_list.dfy`, `sorting.dfy`, `list_sorting.dfy`,
  `seq_moves.dfy`): both linked lists with their transfers and their three sorts, all of which compute the one stable
  ascending arrangement of the nodes.
- `lru_cache.dfy`, `lru_traces.dfy`: the LRU cache, built on the hash table and the intrusive ring, and what it
  computes over whole runs.
- `smart_pointers.dfy`, `ref_counts.dfy`, `pointer_runs.dfy`: SharedPtr and WeakPtr over shared count blocks, with
  recursive destruction, and whole runs.
- `simple_allocator.dfy`, `block_tiling.dfy`, `allocator_runs.dfy`: the block allocator, and whole runs of a program that
  uses it.
- `deque.dfy`: the ends of the deque, its reservations and its iterator arithmetic.
- `heap.dfy`: the binary heap algorithms.
- `thread_pool.dfy`, `pool_runs.dfy`: the thread pool as a transition system over all interleavings.

Objects that the code updates in place are classes with the same fields. A ghost field (`chain`, `nodes`, `items`,
`s`, `h`) holds the abstract state and `Valid()` ties it to the real fields; methods are proved against functions of
the old abstract state, and the properties of those functions are lemmas. Ghost parameters of a method (positions,
mostly) only name what the real arguments point to. Orders are arbitrary strict weak orders, hash functions and key
extractors are arbitrary functions, and sizes are unbounded integers except where a wrapped
product or count is the point.

Where the code does not do what its name says, the model follows the code, with an input that shows it and the exact
condition under which the code does what it should:

- `equals_unique` looks every key up in its own table (`HashTables.HashTable.EqualsUnique`, `HashTables.EqualsUniqueMisses`).
- `erase(pos)` erases the first node with an equal key (`HashTables.HashTable.EraseAt`, `HashTables.EraseAtMisses`).
- `List::sort(comp)`, `List::merge_sort(comp)` and `SList::sort(comp)` merge in the default order and never use comp
  (`Lists.List.SortBy`, `Lists.List.MergeSortBy`, `SLists.SList.SortBy`, `Lists.SortByMisses`).
- LRU inclusion is lost by a Get that hits in the larger cache alone (`LRUTraces.MixedInclusion`,
  `LRUTraces.MixedRunsBreakInclusion`).
- A task that passes the emptiness test of AddTask before Stop clears the threads, but is enqueued after the last worker
  left, is accepted and never run (`PoolRuns.StopCompletes`, `PoolRuns.LateTaskIsLost`).
- A deque that has been emptied has no constructed block, and no push makes one (`Deques.RunOnFresh`,
  `Deques.Deque.ReserveOneForEmptied`, `Deques.PushAfterEmptying`).
- A reservation of several blocks can leave the block map (`Deques.Deque.ReallocateBlockStorage`,
  `Deques.Deque.ReserveAtBack`, `Deques.Deque.ReserveAtFront`; `Deques.FirstReservation`, `Deques.SmallReservation`,
  `Deques.ShiftedReservation`, `Deques.SmallReservationInFront`), and after growth it can construct too few blocks (the
  same methods; `Deques.TooFewBehind`, `Deques.TooFewInFront`).
- A reset that destroys the object its handle lies in releases the handle twice (`SmartPointers.Memory.Release`,
  `SmartPointers.ResetReleasesTwice`).
- `WeakPtr::reset` does not count down (`SmartPointers.Memory.ResetWeak`, `SmartPointers.WeakResetBreaks`,
  `SmartPointers.WeakResetLeaks`).

## Model

| member | source | states |
|---|---|---|
| Powers.Next2Power | src/gtl/util/common.h:30-37 | the least power of two that is at least n |
| SinglyList.RemoveAfter | src/gtl/container/slist_base.h:90-96 | cutting (prev, last] leaves both the rest and the cut stretch correctly linked chains |
| SinglyList.InsertAfter | src/gtl/container/slist_base.h:104-108 | linking a run behind a node gives the spliced chain |
| SinglyList.RemoveOneAfter | src/gtl/container/slist_base.h:70-75 | the one node behind prev leaves the chain |
| SinglyList.InsertOneAfter | src/gtl/container/slist_base.h:77-81 | the one node joins the chain behind after |
| SinglyList.PrevNode | src/gtl/container/slist_base.h:110-116 | the walk from the head stops at the predecessor |
| HashWindows.InsertKeepsWindows | src/gtl/container/hash_table.h:74-82 | after linking a run into bucket b, with b widened or started and the next bucket's predecessor repaired, every bucket is again exactly the window of its nodes |
| HashWindows.EraseKeepsWindows | src/gtl/container/hash_table.h:83-91 | after cutting a stretch of bucket b, with b shrunk or emptied and the next bucket's predecessor repaired, every bucket is again exactly the window of its nodes |
| HashTables.InsertKeepsCoherent | src/gtl/container/hash_table.h:481-491 | the whole heap-free table invariant (fake head, no node twice, windows, equal keys contiguous, power-of-two buckets) survives linking a run of one key |
| HashTables.EraseKeepsCoherent | src/gtl/container/hash_table.h:458-477 | the same invariant survives cutting a stretch of one window |
| HashTables.HashTable.constructor | src/gtl/container/hash_table.h:115-117 | an empty valid table with load factor 3/4; 16 buckets when no more are asked for, else the least power of two that is enough |
| HashTables.HashTable.EntryMeans | src/gtl/container/hash_table.h:61-91 | the entry of a bucket is empty exactly if no element hashes to it; else it gives the node before the first and the last of exactly those that do, which stand together on the chain |
| HashTables.HashTable.AllocBuckets | src/gtl/container/hash_table.h:404-409 | all empty buckets; 16 of them when no more are asked for, else the least power of two that is enough |
| HashTables.HashTable.FindNode | src/gtl/container/hash_table.h:427-445 | the predecessor of the first node with the key, no earlier node having it, or a place where a new node of that key keeps the windows |
| HashTables.HashTable.FindRange | src/gtl/container/hash_table.h:446-457 | the whole run of nodes with the key behind a given node, with its length |
| HashTables.HashTable.Find | src/gtl/container/hash_table.h:279-280 | the first node of the key's group, null exactly when the group is empty |
| HashTables.HashTable.Contains | src/gtl/container/hash_table.h:295-295 | true exactly when some node of the chain has the key |
| HashTables.HashTable.Count | src/gtl/container/hash_table.h:284-294 | the size of the key's group, or one for a non-empty group under unique keys |
| HashTables.HashTable.EqualRange | src/gtl/container/hash_table.h:296-324 | the half-open stretch of the chain that is exactly the key's group (its first node under unique keys) |
| HashTables.HashTable.EraseNodes | src/gtl/container/hash_table.h:458-477 | a stretch of one window is cut, deleted node by node, and the table stays valid |
| HashTables.HashTable.Erase | src/gtl/container/hash_table.h:261-270 | deletes exactly the key's group, returns its size, and leaves every other group as it was |
| HashTables.HashTable.EraseRange | src/gtl/container/hash_table.h:229-260 | for any first before last, across any number of buckets: exactly the stretch goes, in order, the rest stays in order, the size drops by its length, the table is valid, and the loop terminates |
| HashTables.HashTable.EraseAt | src/gtl/container/hash_table.h:221-228 | erases the first node with the key of pos and returns the node now in its place; pos itself goes, and what stood behind it is returned, exactly when pos stands first in its group |
| HashTables.EraseAtMisses | src/gtl/container/hash_table.h:221-228 | two elements with one key: erasing the one that was inserted first erases the other and returns pos itself |
| HashTables.HashTable.InsertNodes | src/gtl/container/hash_table.h:478-491 | links a run of one key, repairing its own window and the next bucket's predecessor; the table stays valid |
| HashTables.HashTable.RehashRound | src/gtl/container/hash_table.h:535-549 | one round of the rehash moves the leading group of the old chain, whole and in its order, to the new one |
| HashTables.HashTable.DoRehash | src/gtl/container/hash_table.h:523-552 | terminates, moves every node once, keeps every group with its internal order, and gives valid windows for the new bucket count |
| HashTables.HashTable.Rehash | src/gtl/container/hash_table.h:339-345 | nothing happens while count is within the load bound; beyond it the bucket array grows to the least power of two that satisfies the bound and every node is relinked once |
| HashTables.HashTable.CheckForRehash | src/gtl/container/hash_table.h:522-522 | the same for the current size plus the elements to come |
| HashTables.HashTable.Clear | src/gtl/container/hash_table.h:416-426 | every node is deleted, in chain order, and all buckets are empty |
| HashTables.HashTable.FindPlace | src/gtl/container/hash_table.h:496-515 | the place for a new node: the hint or its successor's group, else where find_node says; null exactly for a present unique key |
| HashTables.HashTable.Insert | src/gtl/container/hash_table.h:492-521 | unique or not, with or without hint: exactly one node joins, right behind a hint of its key or else in front of its group, all other groups stay; nothing else happens while size stays within 3/4 of the buckets (the load bound), and beyond it the buckets become the least power of two that meets the bound, every node being relinked once |
| HashTables.HashTable.InsertAll | src/gtl/container/hash_table.h:189-194 | reserves once: while the present and the new elements together fit the load bound the buckets stay and no node is relinked, else the buckets become the least power of two that is enough and exactly the present nodes are relinked once; every group ends as the given values inserted one by one |
| HashTables.HashTable.AfterMeans | src/gtl/container/hash_table.h:189-194 | what inserting one by one leaves of a group: with equal keys allowed the new values stand in front, the last one first; with unique keys a group that is there stays, and an empty one gets the first value with its key |
| HashTables.HashTable.EqualsUnique | src/gtl/container/hash_table.h:382-396 | a property that fails: the result says only whether the sizes agree, because every lookup is made in the receiver's own table; as an answer to whether the contents are equal it is right exactly when the sizes differ or the contents are equal |
| HashTables.EqualsUniqueMisses | src/gtl/container/hash_table.h:382-396 | two tables of one element each, with different elements, called equal |
| HashContents.BagFromGroups | src/gtl/container/hash_table.h:523-552 | tables with the same groups hold the same multiset of elements |
| HashContents.CountAgrees | src/gtl/container/hash_table.h:284-295 | the group of a key has as many nodes as there are elements with the key, and is empty exactly when there are none |
| HashRuns.StepBag | src/gtl/container/hash_table.h:149-269 | each step of a run does to the multiset of elements what its name says |
| HashRuns.BudgetInsert | src/gtl/container/hash_table.h:516-525 | one insert keeps the potential that pays for all relinking |
| HashRuns.Apply | src/gtl/container/hash_table.h:149-269 | each public operation changes the sequence of elements as its abstract step says (a range erase leaves exactly those before and behind, an insert puts the element in front of those with its key or right behind the hint, an erase or rehash keeps the elements of every (other) key in order), and the buckets only if it needs room: to the least power of two that is enough, with every node relinked once |
| HashRuns.Run | src/gtl/container/hash_table.h:149-269 | any run of unique and equal inserts with or without hints, erases, range erases, rehashes and clears keeps the table valid, and its elements and buckets follow these steps one by one |
| HashRuns.RunFromEmpty | src/gtl/container/hash_table.h:339-346 | from an empty default table of 16 buckets without forced rehashes, the elements and buckets following the steps: at every point of the run size is at most 3/4 of the buckets, and there were at most 13/6 relinks per insert over all rehashes together |
| Sorting.MergeSorted | src/gtl/container/list.h:293-310 | merging two sorted sequences gives a sorted one |
| Sorting.SortSpecIsStableSort | src/gtl/container/list.h:338-349 | the reference sort is ascending and keeps equivalent elements in their old order |
| Sorting.OnlyStableSort | src/gtl/container/list.h:338-409 | there is only one stable ascending arrangement of a sequence |
| Sorting.MergeHalves | src/gtl/container/list.h:340-349 | merging the sorted halves is the sort of the whole |
| Sorting.QuickParts | src/gtl/container/list.h:385-409 | sorted smaller part, pivot, sorted rest is the sort of the whole |
| Sorting.ChunkedPair | src/gtl/container/list.h:358-381 | merging the two leading chunks turns chunks of n into chunks of 2 n |
| ListSorting.SortMeaning | src/gtl/container/list.h:338-409 | what all sorts of both lists compute: a permutation in which no node is below one before it and, of two equivalent nodes, the one that was first is first; there is only one |
| ListSorting.MergeMeaning | src/gtl/container/list.h:293-310 | merging two ascending sequences is sorting the one before the other |
| ListSorting.SortsAgree | src/gtl/container/list.h:352-382 | two orders sort distinct elements in the same way if and only if they agree, for every two of them, on whether the later one is below the earlier one |
| SeqMoves.ReversedAt | src/gtl/container/list.h:326-337 | position i of the reversed sequence is the mirrored position of s, counted from its end |
| DoublyList.Remove | src/gtl/container/list_base.h:52-59 | unlinking a node leaves a correctly linked ring of the others |
| DoublyList.InsertBefore | src/gtl/container/list_base.h:61-67 | linking a node in gives a correctly linked ring with it at that place |
| DoublyList.RemoveRange | src/gtl/container/list_base.h:76-83 | unlinking a run leaves a correctly linked ring; the run itself stays linked and ends in null |
| Lists.List.PointersMean | src/gtl/container/list_base.h:52-67 | between calls the pointers lead along the nodes in both directions and through the head, and no node is listed twice |
| Lists.List.Transfer | src/gtl/container/list.h:440-453 | between two lists: exactly [first, last) moves, in order, to stand before the given place; both rings, both sizes and the node ownership stay right |
| Lists.List.TransferWithin | src/gtl/container/list.h:440-453 | within one list, for a target outside of the moved range: the stretch moves as a block |
| Lists.List.MergeFrom | src/gtl/container/list.h:293-310 | the result is the stable merge of both node sequences and the other list is empty |
| Lists.List.Reverse | src/gtl/container/list.h:326-337 | the nodes in reverse order |
| Lists.List.MergeSort | src/gtl/container/list.h:340-349 | node for node the unique stable sort; only relinking |
| Lists.List.SortPass | src/gtl/container/list.h:358-381 | one bottom-up pass turns sorted chunks of i into sorted chunks of 2 i, a short last pair included |
| Lists.List.Sort | src/gtl/container/list.h:352-382 | node for node the unique stable sort; only relinking |
| Lists.List.MergeSortBy | src/gtl/container/list.h:338-349 | a property that fails: the inner merge uses the default order, so the nodes end in the default order whatever order is given; that is the given one exactly if both agree, for every two nodes, on whether the later one is below the earlier one |
| Lists.List.SortBy | src/gtl/container/list.h:352-382 | the same for the bottom-up sort |
| Lists.SortByMisses | src/gtl/container/list.h:352-382 | two values that the given order would exchange stay as they are |
| Lists.List.Partition | src/gtl/container/list.h:391-401 | the nodes below the first one move to the left list, in order; the others stay, in order |
| Lists.List.Qsort | src/gtl/container/list.h:385-409 | node for node the unique stable sort, so all three sorts agree |
| Lists.List.Emplace | src/gtl/container/list.h:238-241 | a new node with the value stands before the given place |
| Lists.List.Erase | src/gtl/container/list.h:258-270 | exactly [first, last) is unlinked and deleted in order |
| Lists.List.Clear | src/gtl/container/list.h:284-284 | the list is empty again, its head kept |
| Lists.List.MoveFrom | src/gtl/container/list.h:190-194 | the receiver takes the other list's nodes and the other becomes empty; moved to itself, a list is cleared |
| SLists.SList.PointersMean | src/gtl/container/slist_base.h:142-186 | between calls the pointers lead from the head along the nodes to null, the tail is the last node or else the head, and no node is listed twice |
| SLists.SList.UnlinkAfter | src/gtl/container/slist_base.h:181-186 | the node behind a cell goes; the tail follows when it was the last |
| SLists.SList.LinkAfter | src/gtl/container/slist_base.h:142-163 | a node joins behind any cell; the tail follows at the head of an empty list and at the tail |
| SLists.SList.TransferAfter | src/gtl/container/slist.h:405-422 | between two lists: exactly the nodes strictly between first and last move, in order, behind the given cell; both tails and both sizes stay right |
| SLists.SList.TransferAfterWithin | src/gtl/container/slist.h:405-422 | within one list, also when the target is the first node of the range (nothing moves then) |
| SLists.SList.SpliceOne | src/gtl/container/slist.h:275-283 | exactly the one node behind the iterator moves |
| SLists.SList.MergeFrom | src/gtl/container/slist.h:251-271 | the stable merge of both node sequences; the other list is empty; tails right |
| SLists.SList.Reverse | src/gtl/container/slist.h:292-301 | the nodes in reverse order, tail included |
| SLists.SList.MergeSort | src/gtl/container/slist.h:303-313 | node for node the unique stable sort |
| SLists.SList.SortPass | src/gtl/container/slist.h:322-340 | one bottom-up pass turns sorted chunks of i into sorted chunks of 2 i |
| SLists.SList.Sort | src/gtl/container/slist.h:315-341 | node for node the unique stable sort |
| SLists.SList.SortBy | src/gtl/container/slist.h:315-341 | a property that fails: the inner merges use the default order, with the same exact condition |
| SLists.SList.Partition | src/gtl/container/slist.h:350-361 | the nodes below the first one move to the left list's tail, in order; the others stay, in order |
| SLists.SList.Qsort | src/gtl/container/slist.h:343-369 | node for node the unique stable sort, so all three sorts agree |
| SLists.SList.EmplaceAfter | src/gtl/container/slist.h:198-202 | a new node with the value stands behind the given cell |
| SLists.SList.EraseAfter | src/gtl/container/slist.h:222-231 | exactly the nodes strictly between first and last are deleted, in order |
| SLists.SList.Clear | src/gtl/container/slist.h:242-242 | the list is empty again and its tail is the head |
| SLists.SList.MoveFrom | src/gtl/container/slist.h:147-153 | the receiver takes the other list's nodes, head and tail, and the other becomes empty; nothing happens to a list and itself |
| LRUTraces.RunOnce | src/gtl/container/lru_cache.h:49-64 | over every run: each key is listed once and the length never exceeds the capacity |
| LRUTraces.SetMeans | src/gtl/container/lru_cache.h:49-64 | one Set by positions: a listed key moves to the front with its new value; a new one goes in front, and only from a full cache the last entry goes |
| LRUTraces.GetMeans | src/gtl/container/lru_cache.h:84-101 | one Get by positions: the entry found moves to the front as it is, else nothing happens |
| LRUTraces.SetKeepsInclusion | src/gtl/container/lru_cache.h:49-64 | one Set keeps the smaller cache a prefix of the larger |
| LRUTraces.Inclusion | src/gtl/container/lru_cache.h:49-64 | after the same Sets the list of a cache of capacity c is the first c entries of the list of any larger cache |
| LRUTraces.GetKeepsInclusion | src/gtl/container/lru_cache.h:84-101 | a Get keeps the prefix relation if and only if it does not hit in the larger cache alone |
| LRUTraces.MixedInclusion | src/gtl/container/lru_cache.h:49-101 | over a run of Sets and Gets the smaller cache holds the first entries of the larger one throughout if and only if no Get of the run hits in the larger cache alone |
| LRUTraces.MixedRunsBreakInclusion | src/gtl/container/lru_cache.h:84-101 | a run with Gets on which inclusion fails |
| LRUTraces.Recency | src/gtl/container/lru_cache.h:49-101 | over every run: the list is the distinct keys by last Set or hitting Get, latest first, cut at the capacity, each with the value last stored |
| LRUTraces.EvictsLeastRecent | src/gtl/container/lru_cache.h:58-61 | the entry dropped by an evicting Set is the one touched longest ago |
| LRUCaches.LRUCache.AddToHead | src/gtl/container/list_base.h:119-119 | the node becomes the first of the recency list |
| LRUCaches.LRUCache.FindListNode | src/gtl/container/lru_cache.h:76-83 | the index leads to the listed node of the key, and to none when the key is not listed |
| LRUCaches.LRUCache.Find | src/gtl/container/lru_cache.h:84-93 | a listed node moves to the head; otherwise nothing changes |
| LRUCaches.LRUCache.Exists | src/gtl/container/lru_cache.h:69-69 | true exactly when the key is listed; nothing moves |
| LRUCaches.LRUCache.Size | src/gtl/container/lru_cache.h:71-71 | the number of listed entries, at most the capacity |
| LRUCaches.LRUCache.Get | src/gtl/container/lru_cache.h:94-100 | out_of_range exactly for an unlisted key, the list staying as it is; otherwise a reference to its value, the entry moving to the front and the others keeping their order |
| LRUCaches.LRUCache.DestroyNode | src/gtl/container/lru_cache.h:102-106 | the node leaves list and index together |
| LRUCaches.LRUCache.Set | src/gtl/container/lru_cache.h:49-64 | a listed key gets the value and moves to the front, a new one goes in front, and exactly when the cache was full the last entry goes; index and list stay in agreement |
| LRUCaches.RunOnFresh | src/gtl/container/lru_cache.h:49-107 | any run on a fresh cache ends with the list of the trace model |
| Deques.DequeIterator.Increment | src/gtl/container/deque.h:62-69 | the linear position grows by one |
| Deques.DequeIterator.Decrement | src/gtl/container/deque.h:75-82 | the linear position drops by one |
| Deques.DequeIterator.Add | src/gtl/container/deque.h:88-102 | for any sign of n the linear position changes by exactly n and the offset stays in its block |
| Deques.DequeIterator.Before | src/gtl/container/deque.h:123-125 | the order of positions |
| Deques.Deque.SlotsMean | src/gtl/container/deque.h:270-273 | between calls the items lie one behind the other, 16 to a block, every other slot is empty, and exactly the blocks from that of begin to that of end are constructed, none without items |
| Deques.Deque.At | src/gtl/container/deque.h:270-273 | element i of the abstract sequence |
| Deques.Deque.ReallocateBlockStorage | src/gtl/container/deque.h:609-627 | the new map has the least sufficient power of two of blocks, at least 16; the window moves as a block with its contents; it stays inside the map exactly if, for blocks to be added in front, begin and end block and their number add up to no more than the new capacity (and a first map is larger than their number) |
| Deques.Deque.ReserveAtBack | src/gtl/container/deque.h:583-606 | for any count, how many blocks of 16 are constructed, when the map grows and where its window then stands; the blocks lie inside the map exactly under the stated bound; a first reservation reaches the block of the new end; on a non-empty deque the blocks reach the block of the new end exactly if the map did not grow or the end was in its last block, and the block of the last new element exactly then or if the end was in the last block but one and the new end is at the start of a block |
| Deques.Deque.ReserveOneForEmptied | src/gtl/container/deque.h:583-606 | on an emptied map the slot at the end lies in a constructed block afterwards exactly if it was the last slot of the map |
| Deques.Deque.ReserveAtFront | src/gtl/container/deque.h:560-580 | the same at the front of a non-empty deque; the blocks reach that of the first new element exactly if the map did not grow or the begin was in its first block |
| Deques.Deque.EmplaceBack | src/gtl/container/deque.h:493-498 | appends, with the constructed blocks again exactly those from begin to end; it finds no constructed block exactly if the deque has been emptied before |
| Deques.Deque.EmplaceFront | src/gtl/container/deque.h:499-504 | prepends; on an empty deque the element goes to the back; it fails exactly if the deque has been emptied before |
| Deques.Deque.PopBack | src/gtl/container/deque.h:527-535 | removes the last element and the blocks behind the new end; an emptied deque has no block, and its end is not the last slot of the map |
| Deques.Deque.PopFront | src/gtl/container/deque.h:527-541 | removes the first element and the blocks before the new begin; an emptied deque has no block, and its end is not the last slot of the map |
| Deques.PushAfterEmptying | src/gtl/container/deque.h:493-535 | a push, a pop and a push: the second push finds no constructed block |
| Deques.FirstReservation | src/gtl/container/deque.h:583-627 | a first reservation of 240 elements leaves the map |
| Deques.SmallReservation | src/gtl/container/deque.h:583-606 | a deque of one element and a reservation of 130, which the code takes to need no growth, constructs a block beyond the map |
| Deques.ShiftedReservation | src/gtl/container/deque.h:583-627 | a deque of one element, moved on by pushes and pops, and a reservation of 1887: the map grows, and the shifted window with the new blocks leaves it |
| Deques.SmallReservationInFront | src/gtl/container/deque.h:560-580 | a deque of one element at the end of block 9 and a reservation of 159 in front, which the code takes to need no growth, constructs a block before the map |
| Deques.TooFewBehind | src/gtl/container/deque.h:583-606 | a deque of one element and a reservation of 143: the map grows, one block is constructed behind the end, and the last new element lies in a later one |
| Deques.TooFewInFront | src/gtl/container/deque.h:560-580 | a deque of one element and a reservation of 113 in front: the map grows, one block is constructed before the begin, and the first new element lies in an earlier one |
| Deques.RunOnFresh | src/gtl/container/deque.h:493-542 | any run of pushes and pops at both ends is the run on the abstract sequence; it gets through exactly if no push comes after the deque has been emptied |
| Heaps.RootIsTop | src/gtl/algorithm/heap_op.h:56-70 | the root of a heap is a largest element |
| Heaps.SiftDown | src/gtl/algorithm/heap_op.h:56-70 | repairs one node against the heaps below it; a permutation that touches nothing before it |
| Heaps.SiftUp | src/gtl/algorithm/heap_op.h:72-78 | lets one node rise; the range is a heap again, a permutation |
| Heaps.MakeHeap | src/gtl/algorithm/heap_op.h:80-87 | any range becomes a heap, a permutation: no element is above the one at half its distance from the first |
| Heaps.InPlace | src/gtl/algorithm/heap_op.h:46-49 | what a heap is in positions of the array |
| Heaps.PushHeap | src/gtl/algorithm/heap_op.h:94-99 | the last element joins the heap before it |
| Heaps.PopHeap | src/gtl/algorithm/heap_op.h:106-113 | a largest element goes last and the rest stays a heap |
| Heaps.SortHeap | src/gtl/algorithm/heap_op.h:120-125 | a heap becomes ascending, a permutation |
| Heaps.HeapSort | src/gtl/algorithm/heap_op.h:80-125 | make_heap then sort_heap sorts any array under any strict weak order |
| Heaps.IsHeapUntil | src/gtl/algorithm/heap_op.h:19-39 | a prefix is a heap if and only if it does not reach beyond the result |
| Heaps.IsHeapCheck | src/gtl/algorithm/heap_op.h:46-49 | true exactly for a heap |
| PoolRuns.RunKeepsInv | src/gtl/thread/thread_pool.cc:12-42 | the invariant of all interleavings |
| PoolRuns.DequeuedInOrderOnce | src/gtl/thread/thread_pool.cc:23-42 | the dequeued tasks are a prefix of the accepted ones in order; each is completed once or being run by one worker, never both or twice |
| PoolRuns.AcceptedInOrder | src/gtl/thread/thread_pool.cc:12-21 | the accepted tasks are the order of the enqueue steps: each appends the task of its call, no other step touches them, and what is accepted stays |
| PoolRuns.FirstInFirstOut | src/gtl/thread/thread_pool.cc:16-37 | in every interleaving the worker of the n-th dequeue runs the task of the n-th enqueue, which came before |
| PoolRuns.AcceptedOrPending | src/gtl/thread/thread_pool.cc:12-21 | every task that AddTask lets through is accepted or still on the way to the lock, once per call |
| PoolRuns.LeftoverIsLate | src/gtl/thread/thread_pool.cc:31-34 | once all workers have left, the queue is empty exactly if nothing was enqueued after that |
| PoolRuns.StopCompletes | src/gtl/thread/thread_pool.h:35-45 | when Stop has joined all workers (at least one), all accepted tasks are completed exactly once if and only if none was enqueued after the last worker left |
| PoolRuns.QuietStopCompletes | src/gtl/thread/thread_pool.h:35-45 | in particular when nothing is enqueued once the flag is set |
| PoolRuns.LateTaskIsLost | src/gtl/thread/thread_pool.cc:12-21 | a run that accepts a task which is never executed |
| ThreadPools.ThreadPool.Start | src/gtl/thread/thread_pool.cc:5-10 | one worker per count |
| ThreadPools.ThreadPool.TestThreads | src/gtl/thread/thread_pool.cc:12-15 | refuses exactly when no thread was started or Stop has cleared them |
| ThreadPools.ThreadPool.EnqueueTask | src/gtl/thread/thread_pool.cc:16-20 | the accepted task goes to the end of the queue |
| ThreadPools.ThreadPool.TakeOrExit | src/gtl/thread/thread_pool.cc:25-39 | leaves exactly when stopped with an empty queue, otherwise takes the oldest accepted task not yet taken |
| ThreadPools.ThreadPool.FinishTask | src/gtl/thread/thread_pool.cc:40-40 | what the worker runs is completed |
| ThreadPools.ThreadPool.RequestStop | src/gtl/thread/thread_pool.h:35-39 | sets the flag, once |
| ThreadPools.ThreadPool.JoinNext | src/gtl/thread/thread_pool.h:41-43 | one more worker, which has left its loop, is joined |
| ThreadPools.ThreadPool.ClearThreads | src/gtl/thread/thread_pool.h:41-44 | the end of Stop, with what has then become of the accepted tasks |
| RefCounts.Lifetimes | src/gtl/memory/smart_pointers.h:249-298 | an object is alive exactly while a SharedPtr refers to it, its block exactly while any handle does; weak_count is the WeakPtrs plus one while there are SharedPtrs; whatever was managed is alive or destroyed, never both, and destroyed once |
| RefCounts.LoseShared | src/gtl/memory/smart_pointers.h:249-256 | a handle that goes or is emptied keeps the bookkeeping good; the object starts to die exactly with the last handle |
| RefCounts.Settled | src/gtl/memory/smart_pointers.h:249-289 | after a release exactly those objects are left that some handle keeps alive, directly or along members of objects kept alive |
| RefCounts.SettlesTwice | src/gtl/memory/smart_pointers.h:249-289 | it does not matter in how many releases handles go: what is left are the objects that the other handles keep alive |
| RefCounts.EndOfLife | src/gtl/memory/smart_pointers.h:262-268 | after the destructor the block goes exactly if no WeakPtr is left |
| RefCounts.DropWeak | src/gtl/memory/smart_pointers.h:262-268 | losing a WeakPtr keeps the bookkeeping good; the block goes exactly if nothing counts on it |
| RefCounts.SwapShared | src/gtl/memory/smart_pointers.h:295-298 | exchanging two handles changes no count |
| RefCounts.StrongMember | src/gtl/memory/smart_pointers.h:284-289 | a live SharedPtr that lies inside an object is a member of it, and that object is alive |
| RefCounts.AcyclicLeavesNothing | src/gtl/memory/smart_pointers.h:249-289 | if strong members form no cycle and every non-empty SharedPtr lies inside an object, every object ever managed has been destroyed |
| PointerRuns.Client.Step | src/gtl/memory/smart_pointers.h:232-445 | what one operation on any place does: exactly the links that it names change, a new object comes with empty members, a new handle is the last of its kind, and where a reference was given up exactly the objects are left that the links keep alive |
| PointerRuns.CountsAfter | src/gtl/memory/smart_pointers.h:320-340 | a copy adds one to the use count, a move none; a cleared handle refers to nothing, and a destroyed one is gone |
| PointerRuns.WeakCountsAfter | src/gtl/memory/smart_pointers.h:379-434 | a copy adds a WeakPtr to the block, a lock of a live object a SharedPtr, a move nothing; a destroyed WeakPtr is gone |
| PointerRuns.DropAll | src/gtl/memory/smart_pointers.h:329-329 | when all SharedPtrs of the client have gone, one by one, exactly the objects are left that keep each other alive without them |
| SmartPointers.CycleKeepsItself | src/gtl/memory/smart_pointers.h:331-334 | made by the operations, an object that holds itself survives the last handle from outside |
| SmartPointers.ResetReleasesTwice | src/gtl/memory/smart_pointers.h:368-371 | resetting the member of that object releases it twice |
| SmartPointers.HeldFromOutside | src/gtl/memory/smart_pointers.h:368-371 | a second handle from outside on the object is enough for a member to be released once |
| SmartPointers.Memory.DecUseCount | src/gtl/memory/smart_pointers.h:249-256 | releases one reference; with the last one the object and everything only it kept is destroyed, recursively; what stays referred to stays, and all other handles keep what they refer to |
| SmartPointers.Memory.DecWeakCount | src/gtl/memory/smart_pointers.h:262-268 | the weak count drops and the block is freed at zero |
| SmartPointers.Memory.DestroyMembers | src/gtl/memory/smart_pointers.h:284-289 | deleting an object releases each of its member handles, and no handle outlives the object it is in |
| SmartPointers.Memory.UnsafeReset | src/gtl/memory/smart_pointers.h:274-282 | a fresh block with both counts one for an object, nothing for null |
| SmartPointers.Memory.NewShared | src/gtl/memory/smart_pointers.h:320-320 | a SharedPtr that manages the object, or an empty one |
| SmartPointers.Memory.CopyShared | src/gtl/memory/smart_pointers.h:321-321 | one more handle to the same object |
| SmartPointers.Memory.MoveShared | src/gtl/memory/smart_pointers.h:236-236 | the new handle takes over, the old one is empty |
| SmartPointers.Memory.DestroyShared | src/gtl/memory/smart_pointers.h:329-329 | the handle is gone; of all objects exactly those are left that other handles keep alive |
| SmartPointers.Memory.AssignShared | src/gtl/memory/smart_pointers.h:331-334 | refers to what other does, also for self-assignment; of all objects exactly those are left that the new links keep alive |
| SmartPointers.Memory.AssignMovedShared | src/gtl/memory/smart_pointers.h:335-338 | the same by move, other being emptied, also for self-move |
| SmartPointers.Memory.Release | src/gtl/memory/smart_pointers.h:368-371 | for any handle, members of live objects included: it is released twice exactly if the links without it do not keep the object alive that it lies in; the use count has then wrapped below zero |
| SmartPointers.Memory.Reset | src/gtl/memory/smart_pointers.h:368-371 | under the same exact condition it releases, leaving exactly the objects kept alive, then manages the new object or nothing |
| SmartPointers.Memory.ResetWeak | src/gtl/memory/smart_pointers.h:442-442 | the handle forgets its block; all counts are right afterwards exactly if it referred to none, else the weak count stays one too high |
| SmartPointers.Memory.AddLost | src/gtl/memory/smart_pointers.h:442-442 | after it the counts are those of one more WeakPtr that nobody has |
| SmartPointers.WeakResetBreaks | src/gtl/memory/smart_pointers.h:442-442 | an object with a SharedPtr and a WeakPtr, made by the operations: resetting the WeakPtr leaves the weak count one too high |
| SmartPointers.WeakResetLeaks | src/gtl/memory/smart_pointers.h:249-268 | when the SharedPtr has gone too, the object is destroyed, but its block stays with weak count one and no handle |
| PointerRuns.Run | src/gtl/memory/smart_pointers.h:232-445 | a run of operations of both kinds on handles and on members at any depth gets through exactly if no reset in it destroys the object its handle lies in; every state follows from the one before as its operation says, and every object and block lives exactly as long as it should; in the end every count is right, exactly the objects are left that keep each other alive without the client, and none if no object holds itself |
| SmartPointers.Memory.UseCount | src/gtl/memory/smart_pointers.h:373-373 | the number of live SharedPtrs to the object |
| SmartPointers.Memory.CopyWeak | src/gtl/memory/smart_pointers.h:398-409 | one more WeakPtr to the same object |
| SmartPointers.Memory.MoveWeak | src/gtl/memory/smart_pointers.h:399-399 | the new WeakPtr takes over, the old one is empty |
| SmartPointers.Memory.DestroyWeak | src/gtl/memory/smart_pointers.h:410-410 | the WeakPtr is gone; no object is |
| SmartPointers.Memory.AssignWeak | src/gtl/memory/smart_pointers.h:412-434 | refers to what other does; no other handle changes |
| SmartPointers.Memory.AssignMovedWeak | src/gtl/memory/smart_pointers.h:421-424 | the same by move |
| SmartPointers.Memory.Lock | src/gtl/memory/smart_pointers.h:379-385 | a SharedPtr to the object exactly if it is still alive, an empty one otherwise |
| SmartPointers.Memory.Expired | src/gtl/memory/smart_pointers.h:437-437 | true exactly if there is no live object |
| BlockTiling.BlocksDisjoint | src/gtl/memory/simple_allocator.cc:159-197 | two blocks never overlap, header and payload together |
| BlockTiling.RegionAddsUp | src/gtl/memory/simple_allocator.cc:159-197 | headers and sizes of a region add up to the mapped length |
| BlockTiling.CutTiles | src/gtl/memory/simple_allocator.cc:175-197 | splitting a block keeps the tiling of all regions |
| BlockTiling.JoinTiles | src/gtl/memory/simple_allocator.cc:230-244 | merging two neighbours keeps the tiling of all regions |
| BlockTiling.JoinFreeOk | src/gtl/memory/simple_allocator.cc:230-244 | the free list stays the sorted view of the unused blocks, but for the place of a merged block that is listed |
| BlockTiling.CutCoalesced | src/gtl/memory/simple_allocator.cc:175-197 | splitting a used block leaves no two free neighbours if nothing free stood behind it |
| BlockTiling.WholeRegionFree | src/gtl/memory/simple_allocator.cc:253-267 | an unused block is first and last of its region exactly when no block of the region is in use; so a region without live payload is one block |
| BlockTiling.Shrink | src/gtl/memory/simple_allocator.cc:246-251 | giving a whole region back keeps all invariants, and what is unmapped is exactly what was mapped |
| SimpleAllocators.SimpleAllocator.RemoveFromFreeList | src/gtl/memory/simple_allocator.cc:52-58 | the block is used and off the list |
| SimpleAllocators.SimpleAllocator.AddToFreeList | src/gtl/memory/simple_allocator.cc:60-74 | the block is free and at its sorted place |
| SimpleAllocators.SimpleAllocator.SplitBlock | src/gtl/memory/simple_allocator.cc:175-197 | a used block is cut to size exactly when the rest can hold a header and 16 bytes, and the rest is a free block behind it; all invariants hold and no other used block changes |
| SimpleAllocators.SimpleAllocator.MergeTwoBlock | src/gtl/memory/simple_allocator.cc:230-244 | a block takes in the free one behind it, header included |
| SimpleAllocators.SimpleAllocator.MergeRightBlock | src/gtl/memory/simple_allocator.cc:212-228 | the whole run of free blocks becomes one, listed at its sorted place; all invariants hold |
| SimpleAllocators.SimpleAllocator.MergeBlock | src/gtl/memory/simple_allocator.cc:199-210 | the run is found to the left and to the right, within the region |
| SimpleAllocators.SimpleAllocator.IsBlockFree | src/gtl/memory/simple_allocator.cc:253-267 | true exactly when no block of the region is in use |
| SimpleAllocators.SimpleAllocator.DeleteBlock | src/gtl/memory/simple_allocator.cc:246-251 | the region leaves all lists and exactly its mapped length is unmapped |
| SimpleAllocators.SimpleAllocator.NewBlock | src/gtl/memory/simple_allocator.cc:159-173 | a mapping of exactly 131144 bytes (128 KiB and a header) for less than 128 KiB, else of the size and a header, as one block at the end of the list; or null |
| SimpleAllocators.SimpleAllocator.FindFirstFit | src/gtl/memory/simple_allocator.cc:284-293 | a least sufficient free block, null exactly if none is sufficient |
| SimpleAllocators.SimpleAllocator.FindBestFit | src/gtl/memory/simple_allocator.cc:269-282 | the same |
| SimpleAllocators.SimpleAllocator.FindWorstFit | src/gtl/memory/simple_allocator.cc:295-304 | a largest free block, null exactly if none is sufficient |
| SimpleAllocators.SimpleAllocator.FirstFitIsBestFit | src/gtl/memory/simple_allocator.cc:269-293 | both searches give blocks of the same size |
| SimpleAllocators.SimpleAllocator.Malloc | src/gtl/memory/simple_allocator.cc:11-33 | a block not in use before: the least sufficient free one, cut to size exactly if 88 bytes or more are left over, those being a free block behind it; a new mapping of exactly 131144 bytes (or size and header from 128 KiB on) only if no free block is sufficient, its rest being free; null exactly if the system has no place then; all blocks in use keep their size and contents |
| SimpleAllocators.SimpleAllocator.SecondMalloc | src/gtl/memory/simple_allocator.cc:159-197 | after a first request the rest of the mapping serves every request that fits there, whatever the system answers, and nothing more is mapped |
| SimpleAllocators.SimpleAllocator.Free | src/gtl/memory/simple_allocator.cc:35-50 | the block goes out of use, everything else in use stays; the region is unmapped exactly when more than 1024 are mapped and it was the last use in it |
| SimpleAllocators.SimpleAllocator.Calloc | src/gtl/memory/simple_allocator.cc:95-107 | zeroed memory of the product modulo 2^64; it holds nmemb * size bytes exactly when the product does not wrap; no other payload changes; null exactly for a zero product or without room |
| SimpleAllocators.SimpleAllocator.GrowInPlace | src/gtl/memory/simple_allocator.cc:122-138 | grows exactly when the bytes asked for end inside of the mapping and no other block in use is in the way, keeping all invariants |
| SimpleAllocators.SimpleAllocator.GrowsIff | src/gtl/memory/simple_allocator.cc:127-132 | the next block is free, of the same region and large enough together with its header, if and only if the bytes asked for end inside of the mapping and no other block in use is in the way |
| SimpleAllocators.SimpleAllocator.Realloc | src/gtl/memory/simple_allocator.cc:109-147 | keeps the old bytes, and in place exactly when the bytes asked for end inside of the mapping and no other block in use is in the way; touches no other live payload; null leaves everything as it was, and comes exactly when there is no room in place, no free block suffices and the system has no place |
| SimpleAllocators.SimpleAllocator.PayloadsApart | src/gtl/memory/simple_allocator.cc:11-33 | payloads of different blocks never overlap |
| AllocatorRuns.ClearOfBlocks | src/gtl/memory/simple_allocator.cc:159-173 | blocks leave no hole in a mapping: a range clear of all blocks is clear of all mappings |
| AllocatorRuns.ReadsWhatWasWritten | src/gtl/memory/simple_allocator.cc:11-147 | what a program writes into an allocation it reads there after any further calls and writes, until it writes there again, frees it or cuts it down |
| AllocatorRuns.Run | src/gtl/memory/simple_allocator.cc:11-147 | over any run of Malloc, Calloc, Realloc, Free and writes inside allocations, at every point: the blocks in use are exactly the live allocations, and each reads what was last written to it; a call answers null exactly when it asked for nothing, or no free block (nor, for Realloc, the block itself) suffices and the system has no place |

## Left out

- HashTables.HashTable.Rehash: the load factor is an exact fraction, so float rounding in `rehash` is not modelled.
- HashTables.HashTable.Count: compares the key with the key of each element; the original compares it with the element itself, which only type-checks when elements are keys.
- `HashTable::swap`, move and copy construction, and `equals`, which would repeat the range search.
- Lists.List.TransferWithin: a target inside the moved range is excluded by a precondition.
- SLists.SList.TransferAfterWithin: a target strictly inside the moved range, but for its first node, is excluded by a precondition.
- The single-list transfers change the size down and up again where the original leaves it alone.
- `List` and `SList` bulk insertion, resize and copy assignment, one-node insertions in a loop, and `SList::pop_back`.
- LRUCaches.LRUCache.Get: for caches of key and value pairs, where the key of an entry is fixed; the original's Get also requires pairs.
- The destructor of the cache, and LRUMap and LRUSet, which only rename.
- Objects under construction are made with their member handles passed in; array forms, conversions between element types, AutoPtr and UniquePtr are not modelled.
- SmartPointers.Memory.Release: what the original does on freed storage after a handle has been released twice is undefined, and the model stops there.
- PointerRuns.Run: without `WeakPtr::reset`, which breaks the counts.
- Atomic races: `lock`, counts and the allocator are sequential; NewBlock and its split run outside of the lock in the original.
- Deques.Deque.ReserveAtBack: the elements that a bulk insertion then writes are not modelled, nor is insertion in the middle; where a reservation or a push leaves the constructed blocks, the model stops.
- Element moves are copies of values; a slot holds an optional value.
- SimpleAllocators.SimpleAllocator.Malloc: a data pointer is the handle of its block; the system's answer to a mapping request is a parameter that must be clear of all mappings, and sizes are unbounded, so the header added to a size never wraps.
- SimpleAllocators.SimpleAllocator.MergeBlock: the scan to the left stops at the end of the block list; the original compares with the head of the other list there, and so would read what stands before the block list's head as a header.
- Block headers and list links lie outside of the modelled bytes, so the free-list links that overlay a small payload are not modelled; nor are block names, statistics, alignment, or `gtl_allocator.cc`, the same code under another name.
- The block and free lists of the allocator are sequences of block objects; that the intrusive ring behaves like one is proved in `doubly_list.dfy`.
- ThreadPools.ThreadPool.Start: not once Stop has begun, whose loop over the threads it would race with.
- Two calls of Stop at once, a task that calls Stop, condition variable signalling and liveness of the pool; its task queue is a sequence.
- Networking, logging, strings, vectors, priority queue, stack, queue, arrays and the remaining algorithms: input and output, or one-loop copies.
