# aws-c-common: stateful components, modelled and proved

A Dafny model of the components of aws-c-common that keep non-trivial state,
with proofs of what each is for. `dafny verify dfyconfig.toml` checks the
whole project.

| file | component |
|---|---|
| `Basics.dfy` | optional values, sequences without repetition, bytes, hexadecimal digits |
| `PowersOfTwo.dfy` | powers of two and rounding up to one |
| `RobinHood.dfy`, `EntryMap.dfy`, `HashTable.dfy`, `HashIter.dfy` | the Robin Hood hash table: distance order, the map a slot array stands for, the operations, iteration, `foreach` and equality |
| `OrderedMap.dfy`, `LinkedHashTable.dfy`, `Cache.dfy` | the ordered map a cache stands for, the linked hash table, the LRU, FIFO and LIFO caches |
| `RingBuffer.dfy` | the single-producer, single-consumer ring buffer |
| `SmallBlockAllocator.dfy` | the bins and the allocator over them |
| `PriorityQueue.dfy`, `TaskScheduler.dfy` | the heap with backpointers and the scheduler on top |
| `Bus.dfy` | the reliable asynchronous message bus |
| `ManagedThreads.dfy` | lazy joining of managed threads |
| `JsonStrings.dfy`, `JsonTrees.dfy` | JSON strings and values as the code prints and parses them |
| `JsonCharacters.dfy`, `JsonGrammar.dfy` | the grammar of RFC 8259, and that the parser accepts it and the printer writes it |
| `JsonParser.dfy`, `JsonPrinter.dfy` | the parser and the printer over their buffers |
| `Encoding.dfy` | hexadecimal and base64 |

How the parts are modelled:

* Objects the C code updates in place are classes; arrays it indexes are
  arrays or sequences that methods reassign. Each method is tied to a function
  of the old state, and the laws are proved of those functions.
* The ring buffer, the bus and the managed threads are transition systems. A
  step is one atomic load or store, or one critical section. Every interleaving
  of steps is a run, and the results hold in every state of every run.
* Pointers are natural numbers and NULL is 0. Key hashing and comparison are
  two function parameters. They must be lawful: equality an equivalence and
  equal keys of equal hash, as the documentation of the hash table asks.
* Fresh addresses, growth of lists, timeouts and client behaviour are
  parameters, constrained only by what their providers promise.
* A client of the task scheduler is a finite tree of actions, so callbacks may
  schedule and cancel to any depth.

Where code and documentation disagree the model follows the code:

* `include/aws/common/hash_table.h` lets a `foreach` callback change the value
  through the element it is given. The code passes a copy
  (`HashIteration.WriteReachesIff` for the exact condition, `HashIteration.WriteIsLost`).
* The same header says a callback that asks for deletion continues the
  iteration. Only the continue flag does that (`HashIteration.DeleteStops`; `HashIteration.Foreach`
  for the exact condition).
* A comment in `aws_hash_iter_delete` says the last slot shifted cannot be the
  slot deleted. It is whenever nothing is shifted, and the code is right then
  (`HashIteration.LastIsSlotIff` for the exact condition, `HashIteration.LastIsSlot`).
* `include/aws/common/bus.h` says a message to the address of all is sent only
  to the listeners of that address. It is sent to them twice
  (`Buses.AllTwice`, and `Buses.OnceUnlessAll` for the exact condition).
* `BASE64_DECODING_TABLE` gives the zero byte the value 64, so the decoder takes texts
  outside the alphabet (`Encodings.ZeroAccepted`, and `Encodings.AcceptedIff` and
  `Encodings.StandardIff` for the exact conditions).
* A reallocation given an old size of zero keeps the old block alive
  (`Allocator.Realloc` states exactly when the old block goes).

## Model

| member | source | states |
|---|---|---|
| `PowersOfTwo.RoundUpIsLeast` | include/aws/common/math.inl:168-189 | rounding gives a power of two not below the argument, and every smaller one allowed is below it |
| `RobinHood.ProbeIsWrap` | source/hash_table.c:303-328 | the masked 64-bit probe index is the home slot plus the probe count, wrapped |
| `RobinHood.ProbeOfIsOffset` | source/hash_table.c:330-395 | the masked 64-bit difference is an entry's distance from its home slot |
| `RobinHood.StopIsSound` | source/hash_table.c:330-395 | an entry with the sought hash lies before any slot whose occupant is nearer home |
| `RobinHood.SwapKeepsOrder` | source/hash_table.c:422-476 | displacing a richer occupant keeps the distance order and lets the victim be carried on |
| `RobinHood.ShiftKeepsOrder` | source/hash_table.c:613-651 | backward shift, also across the wraparound, keeps the distance order |
| `RobinHood.ShiftedContents` | source/hash_table.c:613-651 | backward shift removes exactly the deleted entry from the bag of slots |
| `EntryMaps.KeyEqIsEquivalence` | source/hash_table.c:58-78 | with lawful callbacks the null-safe comparison is an equivalence that respects hashes |
| `EntryMaps.KeyEqIsClient` | source/hash_table.c:35-78 | keys are equal exactly when the client's equals function says so, or both are NULL; the code of a key is the client's, guarded against 0 |
| `EntryMaps.SafeEqIsClient` | source/hash_table.c:58-72 | two different objects are compared by the client's function, NULL equals itself only, and an object equals itself |
| `EntryMaps.MapLaws` | source/hash_table.c:575-607 | put rebinds and remove unbinds exactly the keys equal to the given one; bindings are unique |
| `EntryMaps.ClientLaws` | source/hash_table.c:575-607 | the same laws in terms of the client's equals function alone, for objects |
| `EntryMaps.NullLaws` | source/hash_table.c:575-607 | and for the key NULL |
| `EntryMaps.FoundIsBound` | source/hash_table.c:397-420 | the entry found under a key holds the one value the key is bound to |
| `HashTables.SizeForIsSize` | source/hash_table.c:186-211 | every computed size is a power of two of at least two slots |
| `HashTables.SizeForSome` | source/hash_table.c:168-211 | a table can be had exactly for up to 2 to the 59 elements |
| `HashTables.DoubledSize` | source/hash_table.c:478-508 | doubling is exact and raises the load limit, or is refused |
| `HashTables.MaxLoad` | source/hash_table.c:186-211 | the load limit, with the double that 0.95 stands for, is at least one and below the size, so a slot stays empty |
| `HashTables.LoadIsNearest` | source/hash_table.c:186-211 | the limit is the integer part of the size times the double nearest to 0.95 |
| `HashTables.NewTable` | source/hash_table.c:213-245 | no table exactly when the size cannot be represented, else the empty map with room for the expected elements |
| `HashTables.HashTable.FindEntry` | source/hash_table.c:303-328 | found means an equal key there; not found means no equal key anywhere, and where insertion may start |
| `HashTables.HashTable.FindEntry1` | source/hash_table.c:330-395 | the probe loop stops early without missing a key, and terminates |
| `HashTables.HashTable.Find` | source/hash_table.c:397-420 | an entry is returned exactly when the map has the key |
| `HashTables.HashTable.Emplace` | source/hash_table.c:422-476 | the entry goes in, nothing else is lost, order is kept, the slot returned holds it; the loop terminates |
| `HashTables.HashTable.ExpandTable` | source/hash_table.c:478-508 | doubling keeps the map and makes room; exactly when the size is representable |
| `HashTables.HashTable.Create` | source/hash_table.c:510-572 | existing, inserted or failed, each exactly when, with the whole map after |
| `HashTables.HashTable.Put` | source/hash_table.c:575-607 | the map after is the map with the key bound; the replaced entry; failure exactly when the table cannot grow |
| `HashTables.HashTable.RemoveEntry` | source/hash_table.c:613-651 | the slots after are the shifted slots, the last slot touched, the map without the entry |
| `HashTables.HashTable.Remove` | source/hash_table.c:653-696 | the map after is the map with the key unbound; what was removed |
| `HashTables.HashTable.RemoveElement` | source/hash_table.c:698-708 | exactly the entry of the element leaves the map |
| `HashTables.HashTable.Clear` | source/hash_table.c:921-946 | the map is empty and each entry was destroyed once |
| `HashIteration.WindowAfterDelete` | source/hash_table.c:861-919 | after a deletion the unvisited window is unchanged, with the limit lowered exactly when a visited entry was shifted into it |
| `HashIteration.LastIsSlotIff` | source/hash_table.c:861-919 | the last slot touched is the deleted slot if and only if the next slot is empty or its entry is at home |
| `HashIteration.LastIsSlot` | source/hash_table.c:861-919 | as when a table's only entry, in its home slot, is deleted |
| `HashIteration.HashIter.GetNextElement` | source/hash_table.c:785-806 | what is still to be shown is the window from the start slot |
| `HashIteration.HashIter.constructor` | source/hash_table.c:808-821 | a new iterator has the whole map to show |
| `HashIteration.HashIter.IsDone` | source/hash_table.c:823-843 | done exactly in the final status |
| `HashIteration.HashIter.Next` | source/hash_table.c:845-859 | the shown element, unless deleted, leaves what is to be shown |
| `HashIteration.HashIter.Delete` | source/hash_table.c:861-919 | the element leaves the map and the rest is still to be shown, each once |
| `HashIteration.HashIter.WriteCopy` | source/hash_table.c:710-735 | a callback's write to the element it is given reaches the iterator's copy, not the table |
| `HashIteration.HashIter.Turn` | source/hash_table.c:710-735 | from the callback's return on: an error keeps the entry, a deletion takes exactly it, and only the continue flag moves on |
| `HashIteration.Foreach` | source/hash_table.c:710-735 | each visit is to an entry of the start not visited before; the map after is the start less the deleted; a walk that always continues sees all of it, any other stops at the first refusal, with its error |
| `HashIteration.WriteReachesIff` | source/hash_table.c:710-735 | after any walk a kept entry still has its old value, so what its callback wrote is bound to the key if and only if it wrote that value |
| `HashIteration.WriteIsLost` | source/hash_table.c:710-735 | on a table of one entry, a callback that writes another value and continues leaves the old one |
| `HashIteration.DeleteStops` | source/hash_table.c:710-735 | on a table of two entries, a callback that deletes without continuing sees one of them and leaves the other |
| `HashIteration.KeysWithinCount` | source/hash_table.c:737-774 | keys within another map of equal size are all its keys |
| `HashIteration.ScanDecides` | source/hash_table.c:737-774 | with equal counts the one-directional scan decides equality of the maps |
| `HashIteration.TablesEqual` | source/hash_table.c:737-774 | true exactly when the maps are equal, whatever the hash functions and sizes |
| `HashIteration.SameMapIs` | source/hash_table.c:737-774 | equal maps bind the same keys, to values that are the same or that the client's value comparison accepts |
| `OrderedMaps.LookupLaws` | source/linked_hash_table.c:46-115 | as a map: put rebinds and remove unbinds exactly the equal keys, moving to the back changes no binding |
| `OrderedMaps.LookupWithout` | source/lifo_cache.c:42-62 | dropping an item, as eviction does, unbinds its key and no other |
| `OrderedMaps.StepKeeps` | source/linked_hash_table.c:46-133 | every operation keeps the bound, distinct keys and the order by last use |
| `OrderedMaps.RunKeeps` | source/lru_cache.c:55-97 | the same over every run of operations |
| `OrderedMaps.PutLaw` | source/lru_cache.c:55-72 | a put of a present key, or below the maximum, binds the key and changes no other binding |
| `OrderedMaps.PutOverLaw` | source/lifo_cache.c:42-62 | a put of a new key into a full cache binds it, unbinds the victim's key and changes no other binding |
| `OrderedMaps.FindLaw` | source/lru_cache.c:74-76 | finding changes no binding; it moves what it finds to the back of an LRU cache and changes nothing else |
| `OrderedMaps.RunBinds` | source/cache.c:36-56 | what every key is bound to after every run, by the last operation |
| `OrderedMaps.Eviction` | source/lru_cache.c:55-72 | over every run a full cache evicts exactly the least recently used item under LRU and FIFO, the newest other item under LIFO, and no other |
| `LinkedHashTables.NewLinkedTable` | source/linked_hash_table.c:18-37 | no table exactly when the underlying one cannot be had, else the empty ordered map |
| `LinkedHashTables.LinkedHashTable.ElementDestroy` | source/linked_hash_table.c:7-16 | the node is unlinked and freed, its value reported |
| `LinkedHashTables.LinkedHashTable.Find` | source/linked_hash_table.c:46-60 | the value under the key in the ordered map |
| `LinkedHashTables.LinkedHashTable.FindAndMoveToBack` | source/linked_hash_table.c:62-77 | the value, and the item now last |
| `LinkedHashTables.LinkedHashTable.MoveNodeToEnd` | source/linked_hash_table.c:127-133 | the item of the node is now last |
| `LinkedHashTables.LinkedHashTable.Put` | source/linked_hash_table.c:79-109 | list and table stay in bijection; the ordered map after a put, with the table's first key pointer kept; the value destroyed; failure exactly when the table cannot grow |
| `LinkedHashTables.LinkedHashTable.Remove` | source/linked_hash_table.c:111-115 | the ordered map without the key; the node is destroyed by the callback before the entry leaves the table |
| `LinkedHashTables.LinkedHashTable.Clear` | source/linked_hash_table.c:117-121 | empty, each value destroyed once, by the callback over the slots before they are cleared |
| `LinkedHashTables.LinkedHashTable.GetElementCount` | source/linked_hash_table.c:123-125 | the number of items of the ordered map |
| `LinkedHashTables.BoundCount` | source/linked_hash_table.c:123-125 | as many table entries as list nodes |
| `Caches.NewCache` | source/lru_cache.c:25-53 | no cache exactly when the underlying table cannot be had, else the empty ordered map |
| `Caches.Cache.Put` | source/lru_cache.c:55-72 | the ordered map after the policy's put; values are conserved: kept or destroyed once; failure, which changes nothing, exactly when the key is new and a full table cannot grow |
| `Caches.Cache.Evict` | source/lifo_cache.c:42-62 | exactly the policy's victim leaves |
| `Caches.Cache.Find` | source/lru_cache.c:74-76 | the value; under LRU the item becomes the newest |
| `Caches.Cache.UseLruElement` | source/lru_cache.c:78-87 | the front value, its item now last |
| `Caches.Cache.GetMruElement` | source/lru_cache.c:89-97 | the last value |
| `Caches.Cache.Remove` | source/cache.c:46-50 | the ordered map without the key, values conserved |
| `Caches.Cache.Clear` | source/cache.c:52-56 | empty, each value destroyed once |
| `RingBuffers.GrantedSizes` | source/ring_buffer.c:64-126 | granted sizes fit the free stretch and the request; refusal exactly when no stretch is long enough |
| `RingBuffers.GrantsMost` | source/ring_buffer.c:128-229 | a request is refused exactly when its least size exceeds the longest free stretch, and otherwise granted the most of its size that fits |
| `RingBuffers.LayoutSafe` | source/ring_buffer.c:64-126 | buffers running from tail to head are disjoint, inside the allocation, and none exactly when head meets tail |
| `RingBuffers.StepKeeps` | source/ring_buffer.c:128-229 | every load, store and release keeps the layout and the truth of old copies of tail |
| `RingBuffers.Safety` | source/ring_buffer.c:245-252 | in every interleaving buffers are disjoint and inside; between acquires head equals tail exactly when nothing is out, and then any size up to the full one is granted, and an up-to request gets the most that fits |
| `RingBuffers.EmptyGrants` | source/ring_buffer.c:64-229 | in every interleaving, with nothing out, the next request that fits ends with its buffer at the start, one that does not fit changes nothing, and no consumer step comes in between |
| `RingBuffers.RingBuffer.Acquire` | source/ring_buffer.c:64-126 | the new buffer joins the outstanding ones, or nothing changes; success exactly as decided |
| `RingBuffers.RingBuffer.ReleaseFirst` | source/ring_buffer.c:245-252 | the oldest buffer leaves |
| `SmallBlocks.BlocksApart` | source/allocator_sba.c:293-333 | in every bin state blocks lie in their page behind the header and never overlap |
| `SmallBlocks.NothingLive` | source/allocator_sba.c:336-372 | with nothing live no page is listed, so at most the working page is reserved |
| `SmallBlocks.TakeFree` | source/allocator_sba.c:293-333 | handing out a free chunk keeps the split into live, free and uncarved and the page counts |
| `SmallBlocks.CarveCursor` | source/allocator_sba.c:293-333 | carving at the cursor keeps them, and lists a page with no room left |
| `SmallBlocks.DropPage` | source/allocator_sba.c:336-372 | giving back an empty page keeps them |
| `SmallBlocks.RangeIsPage` | source/allocator_sba.c:336-372 | the address range scanned for holds the chunks of that page and no other |
| `SmallBlocks.BinTotal` | source/allocator_sba.c:245-269 | the page counts of a bin add up to its live chunks |
| `SmallBlocks.Bin.Alloc` | source/allocator_sba.c:293-333 | one chunk that was not live becomes live: the last freed, else the one at the cursor, else the first of a new page |
| `SmallBlocks.Bin.RemoveChunks` | source/allocator_sba.c:336-372 | exactly the page's chunks leave the free list |
| `SmallBlocks.Bin.RemovePage` | source/allocator_sba.c:336-372 | exactly the page leaves the list |
| `SmallBlocks.Bin.Free` | source/allocator_sba.c:336-372 | exactly the chunk is no longer live; its page goes exactly when that emptied it and it is not the working page |
| `SmallBlocks.Bin.BytesActive` | source/allocator_sba.c:245-269 | live chunks times chunk size |
| `SmallBlocks.Bin.BytesReserved` | source/allocator_sba.c:271-285 | pages times page size; at most one page when nothing is live |
| `SmallBlockAllocators.BinFits` | source/allocator_sba.c:375-387 | the bin index is below five, its chunks are large enough, the next smaller are not |
| `SmallBlockAllocators.AcquireSmall` | source/allocator_sba.c:389-401 | a chunk handed out is new, of the bin's size, and changes no other block |
| `SmallBlockAllocators.ReleaseSmall` | source/allocator_sba.c:403-425 | a chunk taken back leaves every other block held and as large |
| `SmallBlockAllocators.Allocator.constructor` | source/allocator_sba.c:148-180 | five bins, nothing held |
| `SmallBlockAllocators.Allocator.BlocksDisjoint` | source/allocator_sba.c:389-401 | any two blocks held, small or large, are disjoint |
| `SmallBlockAllocators.Allocator.Acquire` | source/allocator_sba.c:389-401 | a new block at least as large as asked; the others unchanged; small bytes grow by its size; a page is added exactly when the bin has no free chunk and no working page |
| `SmallBlockAllocators.Allocator.Release` | source/allocator_sba.c:403-425 | exactly the block goes, to the bin its page header names or to the parent; small bytes shrink by its size; the page goes exactly when that empties it and it is not the working page |
| `SmallBlockAllocators.Allocator.Realloc` | source/allocator_sba.c:437-464 | the result is large enough, as a kept block is as large as before; the old block goes exactly when the new size is zero or a new block was taken and the old size was not zero; small bytes grow by a new small block and shrink by an old one that goes |
| `SmallBlockAllocators.Allocator.BytesActive` | source/allocator_sba.c:245-269 | the summed sizes of the live small blocks, zero when there are none |
| `SmallBlockAllocators.Allocator.BytesReserved` | source/allocator_sba.c:271-285 | page size times the number of tagged pages; at most one page per bin once all small blocks are released |
| `SmallBlockAllocators.PagesAreTagged` | source/allocator_sba.c:271-285 | the pages the bins hold are the tagged ones, each counted once |
| `PriorityQueues.RootIsLeast` | source/priority_queue.c:389-392 | in a heap no item comes before the root |
| `PriorityQueues.SwapUp` | source/priority_queue.c:97-132 | a swap with the parent moves the only violation of heap order up |
| `PriorityQueues.SwapDown` | source/priority_queue.c:50-95 | a swap with the first child moves it down |
| `PriorityQueues.PriorityQueue.Swap` | source/priority_queue.c:14-48 | both lists swapped and every node names its own item |
| `PriorityQueues.PriorityQueue.SiftDown` | source/priority_queue.c:50-95 | heap order restored, the pairs of item and node kept |
| `PriorityQueues.PriorityQueue.SiftUp` | source/priority_queue.c:97-132 | heap order restored if anything moved, else nothing changed |
| `PriorityQueues.PriorityQueue.SiftEither` | source/priority_queue.c:134-143 | heap order restored wherever it was broken |
| `PriorityQueues.PriorityQueue.PushRef` | source/priority_queue.c:273-327 | the pair joins the queue, or nothing changes; success exactly when the lists can grow |
| `PriorityQueues.PriorityQueue.RemoveNode` | source/priority_queue.c:329-361 | exactly that pair leaves, its node marked |
| `PriorityQueues.PriorityQueue.Remove` | source/priority_queue.c:363-377 | exactly the pair at the node's index leaves and its own node is marked; for a node of the queue that is its own item; an error exactly for an index out of range or a queue without nodes |
| `PriorityQueues.PriorityQueue.Pop` | source/priority_queue.c:379-387 | a least item leaves, its node marked |
| `PriorityQueues.PriorityQueue.Top` | source/priority_queue.c:389-392 | a least item |
| `TaskSchedulers.AcceptedOnce` | source/task_scheduler.c:34-45 | each accepted scheduling is pending or has run, at most once in all |
| `TaskSchedulers.RunStep` | source/task_scheduler.c:191-251 | one turn of the run loop keeps: run so far, then running list, is everything due less what callbacks cancelled |
| `TaskSchedulers.Scheduler.DoScheduleNow` | source/task_scheduler.c:127-144 | the task joins the end of the asap list |
| `TaskSchedulers.Scheduler.PlaceFuture` | source/task_scheduler.c:146-183 | the heap takes the job, or a failed push puts it in its place in the overflow list |
| `TaskSchedulers.Scheduler.DoScheduleFuture` | source/task_scheduler.c:146-183 | exactly this job joins heap or overflow list; every task is in exactly one list or the heap |
| `TaskSchedulers.Scheduler.Unqueue` | source/task_scheduler.c:253-267 | the heap gives up the job of the task asked for |
| `TaskSchedulers.Scheduler.TakeTask` | source/task_scheduler.c:253-267 | the job taken is that of the task, from whichever place holds it |
| `TaskSchedulers.Scheduler.Run` | source/task_scheduler.c:34-45 | the job is logged once; accepted schedulings, log and asap list after it are exactly what its callback's actions cause, from the actions and the old state alone; it only cancels from the running list |
| `TaskSchedulers.Scheduler.DoCancel` | source/task_scheduler.c:253-267 | a scheduled task is the first one run, as cancelled; one that is not scheduled is run as cancelled too; all that follows is what its callback's actions cause |
| `TaskSchedulers.Scheduler.Perform` | source/task_scheduler.c:127-267 | what a list of actions does to accepted schedulings, log and asap list is what the actions cause, one by one |
| `TaskSchedulers.Scheduler.MoveTimed` | source/task_scheduler.c:191-251 | the merge of overflow list and heap is in order of time and leaves later tasks |
| `TaskSchedulers.Scheduler.MoveDue` | source/task_scheduler.c:191-251 | the running list is the asap list, then all that is due, in order of time |
| `TaskSchedulers.Scheduler.RunAll` | source/task_scheduler.c:191-251 | what runs is exactly the asap tasks in order, then the due ones by time, less those cancelled meanwhile; the state after is that of the turns of the loop, each determined by the job run and the actions of its function; up to the end of time, and with nothing scheduled meanwhile, nothing is left |
| `TaskSchedulers.TakesEffect` | source/task_scheduler.c:191-251 | every action of the function of every task run takes effect at once, and what follows only adds to it |
| `TaskSchedulers.Meanwhile` | source/task_scheduler.c:191-267 | a task scheduled when a function run by the loop cancels it is run as cancelled and not by the loop; one that is not scheduled when it is scheduled there is accepted |
| `TaskSchedulers.Scheduler.HasTasks` | source/task_scheduler.c:93-125 | whether anything is scheduled, and the least time |
| `TaskSchedulers.Scheduler.CleanUp` | source/task_scheduler.c:73-86 | finished exactly when nothing is left, and then every accepted scheduling has run exactly once; all it runs is run as cancelled; every round but the last had a scheduling accepted in it, and the last too unless it finished |
| `Buses.TableCounts` | source/bus.c:127-178 | the listener table holds a listener once per subscription in force |
| `Buses.CallsPerListener` | source/bus.c:98-125 | a message reaches a listener once per subscription to its address and once per subscription to all |
| `Buses.CallOrder` | source/bus.c:98-125 | of any three listeners, the one of all addresses is called first and the two of one address in the order they subscribed |
| `Buses.OnceUnlessAll` | source/bus.c:117-125 | a single covering subscription gives exactly one call if and only if the address is not that of all |
| `Buses.AllTwice` | source/bus.c:117-125 | a message to all reaches a listener of all twice |
| `Buses.StepKeeps` | source/bus.c:441-482 | every client step and every dispatcher step keeps the invariant |
| `Buses.PoolKept` | source/bus.c:322-352 | every step conserves the pooled messages and accounts for the others |
| `Buses.InOrder` | source/bus.c:373-392 | in every run what was called and destroyed is a prefix of the sends' deliveries in send order |
| `Buses.AtExit` | source/bus.c:394-425 | when the dispatcher exits every send is delivered, every request applied, both queues are empty and all messages are back |
| `Buses.DeliveredTo` | source/bus.c:484-510 | at exit each send is destroyed once if it has a destructor, and calls each listener once per subscription in force when delivered, all requests before the send included |
| `Buses.Accepted` | source/bus.c:484-577 | in every run the requests and sends accepted are exactly those clients made before clean_up, in order, but for requests to the closing address |
| `Buses.DeliveredAt` | source/bus.c:394-425 | on the steps of the run: at exit each send made before clean_up called each listener once per subscription in force at one moment not before the send, and was destroyed once if it has a destructor |
| `Buses.ExactlyOnce` | source/bus.c:512-544 | on the steps of the run: a listener that subscribed once before the send and asked nothing else about the address is called exactly once |
| `Buses.NotOnceRemoved` | source/bus.c:546-577 | on the steps of the run: one that subscribed and unsubscribed before the send is not called |
| `Buses.Nearer` | source/bus.c:427-482 | during shutdown the dispatcher is never stuck and each of its steps comes nearer the exit |
| `Buses.Drain` | source/bus.c:394-425 | during shutdown, in every interleaving with clients, each step the dispatcher takes and nothing else brings the exit one step nearer; it has exited exactly when it has taken that many steps, and until then it can take the next |
| `Buses.ShutdownEnds` | source/bus.c:394-482 | the same in every run of the bus: it has exited exactly when the dispatcher has taken the steps it was from the exit when shutdown began |
| `ManagedThreads.HeldKept` | source/thread_shared.c:144-163 | every step keeps each released thread on exactly one list, its holder's |
| `ManagedThreads.CountKept` | source/thread_shared.c:34-45 | every step keeps the count equal to unfreed threads plus outside increments |
| `ManagedThreads.StepKeeps` | source/posix/thread.c:85-169 | every step keeps the invariant |
| `ManagedThreads.Safety` | source/thread_shared.c:67-163 | in every interleaving: at most one pending thread, the exact count, each thread joined at most once and never by itself |
| `ManagedThreads.AskedFor` | source/thread_shared.c:34-142 | in every interleaving: as many threads and outside counts as clients asked for, and a caller fails only if it was given a timeout |
| `ManagedThreads.WaitsForEarlier` | source/thread_shared.c:144-163 | a thread waits only for one released earlier, so joins form no cycle |
| `ManagedThreads.NoDeadlock` | source/posix/thread.c:85-107 | down the chain of threads a joining thread waits for, each for the next to join, there is one that can move |
| `ManagedThreads.SuccessSawZero` | source/thread_shared.c:67-142 | a caller decides on success exactly when it saw a zero count in time, and then nothing was unjoined, pending or counted outside |
| `ManagedThreads.DecidedAt` | source/thread_shared.c:67-142 | in every run a caller that returned success decided at a step where it was waiting and the count was zero, with as many threads as it records |
| `ManagedThreads.SuccessMeansAll` | source/thread_shared.c:67-142 | in every run a caller that returned success was, at an earlier state of that run, waiting with a zero count and nothing counted outside; every thread of that state had been joined and freed or never came to run, and still so at the return |
| `ManagedThreads.BacklogIsOne` | source/thread_shared.c:26-32 | when all threads have returned and nobody joins, at most one is left, on the shared list |
| `ManagedThreads.CreateCount` | source/posix/thread.c:286-300 | a failed creation takes its increment back, and its thread is never counted |
| `JsonStrings.Utf8IsStandard` | source/external/cJSON.c:705-757 | every code point is written as the table of section 3 of RFC 3629 has it |
| `JsonStrings.ScalarDecodes` | source/external/cJSON.c:649-767 | the literal of every Unicode scalar value, surrogate pairs included, becomes its UTF-8 form |
| `JsonStrings.ScanCountsTokens` | source/external/cJSON.c:783-815 | the first scan reserves one byte per token |
| `JsonStrings.StepBounded` | source/external/cJSON.c:819-868 | one round of the second scan, aligned with the tokens or not, writes no more bytes than tokens end under it |
| `JsonStrings.WritesBounded` | source/external/cJSON.c:819-868 | from any position the second scan writes no more than the tokens that still end there |
| `JsonStrings.AllocationSuffices` | source/external/cJSON.c:783-879 | the allocation holds all that is written, for every input, malformed escapes included |
| `JsonStrings.CountIsExact` | source/external/cJSON.c:926-953 | the counting pass computes exactly the length of the escaped text |
| `JsonCharacters.StringRoundTrip` | source/external/cJSON.c:770-1018 | every string is read back from its printed form |
| `JsonCharacters.StringParses` | source/external/cJSON.c:770-896 | every string of section 7 of RFC 8259, with every escape, digits in either case and surrogate pairs, is read as what it means |
| `JsonCharacters.BadLetter` | source/external/cJSON.c:829-868 | an escape with any other letter makes the string unreadable |
| `JsonCharacters.LoneSurrogate` | source/external/cJSON.c:649-703 | and so does a surrogate without its partner |
| `JsonCharacters.StringTextIs` | source/external/cJSON.c:899-1018 | what is printed for a string is a string of that grammar that means it |
| `JsonGrammar.ValueRoundTrip` | source/external/cJSON.c:1309-1435 | every tree's text, formatted or not, is parsed back to the tree exactly when the nesting fits the limit, and refused otherwise |
| `JsonGrammar.ArrayParses` | source/external/cJSON.c:1438-1596 | every array of the grammar of RFC 8259, with blanks wherever it has them, is parsed to what it means within the nesting limit, and refused beyond it |
| `JsonGrammar.ObjectParses` | source/external/cJSON.c:1598-1822 | the same for objects |
| `JsonGrammar.ValueParses` | source/external/cJSON.c:1309-1361 | the same for all values but numbers |
| `JsonGrammar.ParsesIff` | source/external/cJSON.c:1309-1361 | the parser reads a value exactly when the grammar derives one there within the nesting limit, with any byte up to 32 as a blank |
| `JsonGrammar.TextParses` | source/external/cJSON.c:1076-1175 | a byte order mark and blanks in front are skipped, and what follows the value is ignored |
| `JsonGrammar.TextShape` | source/external/cJSON.c:1076-1175 | only such a text has a value |
| `JsonGrammar.DocMeans` | source/external/cJSON.c:1364-1435 | the printed text is one of the standard's grammar, and it means the value |
| `JsonGrammar.TextIs` | source/external/cJSON.c:1364-1822 | what is printed, formatted or not, is exactly that text: every blank and every escape |
| `JsonGrammar.PrintParse` | source/external/cJSON.c:1092-1175 | the same from the entry points |
| `JsonParsers.ParseBuffer.SkipBlanks` | source/external/cJSON.c:1035-1058 | stops on the first byte above 32 or on the closing zero |
| `JsonParsers.ParseBuffer.MeasureString` | source/external/cJSON.c:783-811 | the first loop computes the end and the escapes passed |
| `JsonParsers.ParseBuffer.FillString` | source/external/cJSON.c:819-872 | every write is inside the allocated buffer; the result is the unescaped text, or a failure at exactly the first malformed literal |
| `JsonParsers.WriteUtf8` | source/external/cJSON.c:735-757 | the backwards loop writes the code point's bytes behind what is there |
| `JsonParsers.ParseBuffer.WriteLiteral` | source/external/cJSON.c:649-767 | writes the literal's bytes and returns its length, zero if malformed |
| `JsonParsers.ParseBuffer.ReadHex4` | source/external/cJSON.c:612-645 | the value of four digits, zero if one is none |
| `JsonParsers.ParseBuffer.ReadString` | source/external/cJSON.c:770-896 | the string and the offset behind it as specified; on failure the exact offset it stops at; reads inside the zero-terminated buffer |
| `JsonParsers.ParseBuffer.ReadValue` | source/external/cJSON.c:1309-1361 | value, offset and depth as specified |
| `JsonParsers.ParseBuffer.ReadArray` | source/external/cJSON.c:1438-1533 | the same for arrays |
| `JsonParsers.ParseBuffer.ReadObject` | source/external/cJSON.c:1598-1708 | the same for objects |
| `JsonParsers.ParseText` | source/external/cJSON.c:1076-1175 | parses as specified, byte order mark included |
| `JsonPrinters.PrintBuffer.Ensure` | source/external/cJSON.c:440-523 | room exactly within the size limit, earlier contents kept |
| `JsonPrinters.PrintBuffer.UpdateOffset` | source/external/cJSON.c:526-536 | the offset moves to the end of the text just printed |
| `JsonPrinters.PrintBuffer.CountEscapes` | source/external/cJSON.c:926-953 | the number of extra characters |
| `JsonPrinters.PrintBuffer.CopyEscaped` | source/external/cJSON.c:973-1012 | the copying loop writes the escaped text |
| `JsonPrinters.PrintBuffer.PrintString` | source/external/cJSON.c:899-1018 | the quoted text behind earlier contents, zero-terminated; success within the size limit |
| `JsonPrinters.PrintBuffer.PrintValue` | source/external/cJSON.c:1364-1435 | the tree's text behind earlier contents, zero-terminated, depth restored |
| `JsonPrinters.PrintBuffer.PrintArray` | source/external/cJSON.c:1536-1595 | the same for arrays |
| `JsonPrinters.PrintBuffer.PrintObject` | source/external/cJSON.c:1711-1822 | the same for objects |
| `JsonPrinters.Print` | source/external/cJSON.c:1184-1257 | the text, which parses back to the tree if the nesting permits; no text only beyond the size limit |
| `Encodings.HexRoundTrip` | source/encoding.c:107-132 | decoding the lower-case text gives the bytes back |
| `Encodings.HexTextIs` | source/encoding.c:80-132 | every byte is written as its two lower-case digits, the high one first |
| `Octets.HexDigitsAre` | source/encoding.c:134-164 | digits are written in lower case and read in either case, and nothing else is a digit |
| `Encodings.OddIsLeadingZero` | source/encoding.c:166-210 | an odd number of digits decodes as with a zero digit in front |
| `Encodings.HexDonePrefix` | source/encoding.c:166-210 | what a decode writes is the decoding of a prefix, all of the text exactly when it decodes, else up to the pair with a byte that is no digit |
| `Encodings.PaddingIsStandard` | source/encoding.c:268-338 | zero-filled blocks with the tail replaced are the encoding of section 4 of RFC 4648 |
| `Encodings.Base64TextIs` | source/encoding.c:268-338 | character by character: the six-bit group's place in table 1 of RFC 4648, and padding beyond the last bit |
| `Encodings.Base64RoundTrip` | source/encoding.c:351-413 | decoding the encoding gives the bytes back |
| `Encodings.DecodedBytes` | source/encoding.c:351-413 | byte by byte: the eight bits of the groups that the characters stand for, whether or not bits are left over |
| `Encodings.PlaceIs` | source/encoding.c:340-349 | a character of the alphabet stands for its place in it |
| `Encodings.DecodedLengthExact` | source/encoding.c:234-266 | the length computed from an encoding is that of the bytes |
| `Encodings.WritesWithin` | source/encoding.c:351-413 | decoding writes at most the computed length, and all of it unless a padding character precedes another last one |
| `Encodings.DonePrefix` | source/encoding.c:351-413 | what a decode writes is the decoding of the blocks in front of the first refused one |
| `Encodings.HasValueIff` | source/encoding.c:340-349 | a byte has a value exactly when it is zero or in the alphabet, or padding where that is allowed |
| `Encodings.AcceptedIff` | source/encoding.c:351-413 | a text is accepted exactly when every byte has a value, padding allowed in the last two places only |
| `Encodings.StandardIff` | source/encoding.c:351-413 | an accepted text is in the alphabet of section 4 of RFC 4648, with padding at the end, if and only if it has no zero byte |
| `Encodings.ZeroAccepted` | source/encoding.c:351-413 | a text with a zero byte is accepted |
| `Encodings.ByteBuf.HexEncode` | source/encoding.c:80-105 | the text and a zero from the start; refused exactly when too short |
| `Encodings.ByteBuf.HexAppend` | source/encoding.c:107-132 | the text behind the earlier contents |
| `Encodings.ByteBuf.HexDecode` | source/encoding.c:166-210 | the bytes, or the exact error; what is written, in success and in failure, and that nothing else changes |
| `Encodings.ByteBuf.Base64Encode` | source/encoding.c:268-338 | the encoding behind the earlier contents, zero-terminated; refused exactly when too short |
| `Encodings.ByteBuf.Base64Decode` | source/encoding.c:351-413 | the bytes, or the exact error; what is written, in success and in failure, and that nothing else changes |

## Left out

- The operating-system layer: files, environment, processes, clocks, random devices, logging, error tables.
- Dates and UUIDs, which depend on C library formatting.
- JSON numbers: strtod, sscanf and "%g" are foreign; the model's parser refuses a number, and trees hold none.
- JSON raw items, item lookup and editing, and parsing of buffers without a terminating zero, which this library never does.
- A parsed string that contains an escaped zero is kept whole; C callers see it up to that zero.
- The SIMD base64 path, and length computations that overflow near SIZE_MAX.
- Bit operations of the codecs and of UTF-8 are written as the division and remainder they amount to.
- The synchronous and the unreliable bus; the close messages to listeners when a listener table is destroyed.
- Weak memory ordering: loads and stores are steps of one global order.
- Mutexes and condition variables themselves: a critical section is one step, and a wait is enabled when its predicate holds.
- The 32-bit wrap-around of the unjoined thread count.
- The thread scheduler, the XML parser and the command line parser.
- Out-of-memory aborts, secure zeroing, pointer validity macros and what destructors do.
- Linked lists are sequences, so the pointer updates inside the list functions are not modelled.
- The hash functions themselves: any function that is lawful with the equality.
- CharOk: bytes from 128 on are taken as they stand; whether they form valid UTF-8 is not asked.
- ReadValue: a number is refused; where a failed array or object leaves the offset is stated only as a range.
- ReadArray: where a failure leaves offset and depth is stated only as a range.
- ReadObject: the same.
- ParseText: a text with a number is refused.
- DoCancel: a task that is not scheduled is taken to have its node in no list, as after its initialization and after each run.
- CleanUp: the number of rounds is given by the caller, as callbacks may schedule without end.
- Realloc: the bytes copied are not modelled, only that they fit both blocks.
- Release: a page tag is found only where the allocator put one. The code reads whatever lies at the page base, so a parent's block whose bytes there equal both tags would be taken for a page.
- ReleaseFirst: buffers are released in the order of acquisition, as the ring buffer demands.
