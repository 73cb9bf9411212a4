# Food distribution network — verified model

A model of a small C program that distributes food to regions. The program
has four parts:

- a FIFO queue of food batches, built as a singly linked list;
- a binary max-heap of (region, hunger level) entries;
- a route graph between regions, stored as an adjacency matrix;
- an allocation pass. It queues every region by hunger level and serves
  regions hungriest first. For each region it hands out every positive
  inventory slot and sets that slot to zero.

The model has five modules, one file each:

- `Network` (`network.dfy`): the capacities, the `Region` record and the
  class `FoodNetwork` with its route matrix (`array2<int>`).
- `PriorityQueue` (`priority_queue.dfy`): the class `MaxHeap`. It holds an
  `array<Entry>` and a `size` field, which stands in for the program's
  global heap counter. The heap order and the sift steps are stated as
  predicates and lemmas on sequences.
- `BatchQueue` (`batch_queue.dfy`): the linked FIFO. It has classes `Node`
  and `LinkedListQueue`, with ghost `nodes`, `Contents` and `Repr`.
- `Allocation` (`allocation.dfy`): the allocation pass over an
  `array2<int>` inventory (regions × food types). The program prints
  messages; the model returns them instead, as two values:
  - the regions in the order they were served;
  - the distribution events (region, food type, quantity).

  What the pass returns is tied to specification functions
  (`RegionEvents`, `AllocationEvents`, `Pending`, `ServiceOrder`), and the
  lemmas state their properties.
- `Demo` (`demo.dfy`): the program's own scenario. Regions A, B and C have
  hunger levels 5, 8 and 3. Region A holds 100 units of food type 1 and
  region B holds 200 units of food type 2. The service order is proved to
  be B, A, C, the events (B, 2, 200) then (A, 1, 100), and the final
  inventory all zeros.

## Model

| member | source | states |
|---|---|---|
| Network.FoodNetwork.InitGraph | main.c:117-124 | records the region count; every pair among the first `n` regions gets the no-route weight INT_MAX; every other cell keeps its value; the first `n`×`n` block is symmetric |
| Network.FoodNetwork.AddEdge | main.c:112-115 | the weight is set in both directions and no other cell changes; a block that was symmetric stays symmetric |
| BatchQueue.LinkedListQueue.EndsAgree | main.c:54-55 | in a well-formed queue, front is null exactly when rear is null, and exactly when the queue holds no batch |
| BatchQueue.LinkedListQueue.Enqueue | main.c:50-60 | the batch is appended at the rear (contents become old contents plus the batch); the queue stays well formed, with front and rear both set when it was empty |
| BatchQueue.LinkedListQueue.Dequeue | main.c:62-73 | an empty queue returns the sentinel and stays empty; otherwise the first batch is returned and removed; the rear is reset when the last node leaves (well-formedness) |
| BatchQueue.DrainAll | main.c:62-73 | dequeuing until front is null yields exactly the queued batches, in order, and leaves the queue empty |
| BatchQueue.FirstInFirstOut | main.c:50-73 | batches enqueued into an empty queue come back out in the same order |
| BatchQueue.TwoThenEmpty | main.c:50-73 | two enqueued batches come out in order, and a third dequeue returns the empty sentinel |
| PriorityQueue.Swap | main.c:96-104 | exchanging two heap slots puts each entry in the other's place and leaves every other slot unchanged |
| PriorityQueue.SwapIsPermutation | main.c:96-104 | an exchange inside the live part keeps the multiset of live entries |
| PriorityQueue.RootIsMax | main.c:88 | in a heap, the root's priority is at least that of every live entry |
| PriorityQueue.RootDominates | main.c:88 | every live entry of a heap has priority at most the root's |
| PriorityQueue.MaxHeap.constructor | main.c:47 | a fresh queue is a valid heap with no live entries |
| PriorityQueue.MaxHeap.Insert | main.c:76-84 | when not full, the size grows by one, the live entries gain exactly (id, priority), and the heap order holds; when full, nothing changes and it reports failure |
| PriorityQueue.MaxHeap.SiftUp | main.c:77-83 | moving lower-priority parents down the hole and writing the entry where that stops restores heap order and only permutes the live entries |
| PriorityQueue.MaxHeap.ExtractMax | main.c:86-109 | an empty queue returns -1 and changes nothing; otherwise it returns the id of an entry of maximal priority, removes exactly that entry from the live multiset, shrinks the size by one and keeps heap order |
| PriorityQueue.MaxHeap.SiftDown | main.c:90-107 | swapping the hole with its larger child while that child is strictly higher restores heap order and only permutes the live entries |
| Allocation.RegionEvents | main.c:137-143 | every event of a region's row goes to that region, names a food type below the bound, and carries that slot's positive quantity |
| Allocation.RegionEventsComplete | main.c:137-143 | every positive slot of the row is reported with its quantity |
| Allocation.RegionEventsAscending | main.c:137 | a region's events come in strictly ascending food-type order |
| Allocation.NoPositiveSlot | main.c:138 | a row with no positive slot yields no event |
| Allocation.SinglePositiveSlot | main.c:137-143 | a row with exactly one positive slot yields exactly that one event |
| Allocation.EventsFromStock | main.c:133-143 | every event of a pass goes to a served region and hands out a positive slot with its quantity from before the pass |
| Allocation.EventsForMembers | main.c:135-140 | selecting the events of one region keeps exactly the events that go to that region |
| Allocation.EventsOfUnserved | main.c:133-143 | a region that is not served receives no event |
| Allocation.EventsOfServed | main.c:133-143 | when no region is served twice, the events of a served region are exactly its positive slots, in ascending food type, with the quantities from before the pass |
| Allocation.NothingLeftToReport | main.c:138-141 | a pass over regions whose slots are all non-positive reports nothing |
| Allocation.EventsStep | main.c:133-143 | serving one more region appends exactly that region's events to those of the pass so far |
| Allocation.PendingCount | main.c:129-131 | the queued entries hold each region below the count exactly once, with its hunger level, and nothing else |
| Allocation.DrawnFromPending | main.c:129-134 | entries taken from the queued entries belong to regions below the count, carry their hunger levels, and never repeat a region |
| Allocation.AllDrawn | main.c:129-133 | entries that make up all queued entries cover every region below the count |
| Allocation.NonIncreasing | main.c:133-134 | priorities that never rise between neighbours never rise between any two positions |
| Allocation.RankedStep | main.c:133-134 | taking a maximal entry from the queue keeps the served entries in non-increasing order, each at least as high as everything still queued |
| Allocation.ServedInOrder | main.c:133-134 | the regions served so far are in range, none is served twice, and their hunger levels are non-increasing |
| Allocation.AllServed | main.c:133 | once the queue is empty, every region below the count has been served |
| Allocation.QueueRegions | main.c:128-131 | after inserting every region below `n` into an empty heap, the heap holds exactly `n` entries, one (index, hunger level) per region |
| Allocation.DrainedAll | main.c:141 | once exactly the regions below `n` are served, their positive slots are 0 and every other slot is as before |
| Allocation.ServeRegion | main.c:137-143 | the region's events are its positive slots in food-type order; those slots become 0 and every other cell keeps its value |
| Allocation.ServeUnserved | main.c:137-143 | serving a region not yet served appends its events and drains its slots, keeping the pass's inventory state |
| Allocation.ProgressStep | main.c:133-134 | the region taken next is in range and not yet served, and the ranked loop state carries over to the next round |
| Allocation.TakeNext | main.c:133-134 | taking the maximum yields a region in range and not yet served, shrinks the heap by one and keeps the ranked loop state |
| Allocation.ServeLoop | main.c:133-144 | the loop ends with an empty heap, a ranked service order covering all queued entries, and the inventory drained with the events reported |
| Allocation.PassComplete | main.c:133-144 | at the end of the loop, every region below the count is served once, in non-increasing hunger, and exactly the positive slots of those regions are 0 |
| Allocation.ServeAll | main.c:133-144 | given a heap holding the queued entries, it serves every region once in non-increasing hunger, reports the events of the pass, and drains exactly those regions' positive slots |
| Allocation.DistributeFood | main.c:127-145 | visits every region below the count exactly once, in non-increasing hunger; reports the pre-pass positive slots of each visited region in ascending food type; zeroes exactly those slots; a zero or negative region count serves no region; leaves the heap empty |
| Allocation.DistributeTwice | main.c:127-145 | a second pass over the same inventory reports nothing |
| Demo.OnlyServiceOrder | main.c:154-161 | with hunger levels 5, 8 and 3, the only order that serves each of the three regions once, hungriest first, is 1, 0, 2 |
| Demo.ThreeRounds | main.c:133-143 | the events of serving three regions are the first region's events, then the second's, then the third's |
| Demo.ScenarioEvents | main.c:163-166 | from the demo's inventory, serving regions 1, 0, 2 reports (1, 2, 200) then (0, 1, 100) |
| Demo.ScenarioEmptied | main.c:163-166 | after the pass, the demo's inventory holds 0 in every slot |
| Demo.ScenarioNetwork | main.c:149-161 | the demo network has three regions with hunger levels 5, 8 and 3 |
| Demo.ScenarioInventory | main.c:150-164 | the demo inventory is zero except 100 units of food type 1 at region 0 and 200 units of food type 2 at region 1 |
| Demo.Scenario | main.c:148-169 | the demo serves regions 1, 0, 2, reports (1, 2, 200) then (0, 1, 100), and leaves every slot at 0 |

## Left out

- Console output: the messages printed during the allocation pass are returned as the visited regions and the events. Formatting and `printf` are not modelled.
- Memory management: `malloc` and `free` of queue nodes are object allocation and dropping a reference. An allocation that fails is not modelled.
- Region names: `strcpy` into a 50-byte buffer is modelled as assigning a string. Buffer length is not modelled.
- PriorityQueue.MaxHeap.Insert: when the heap already holds MAX_REGIONS entries, the C writes past the array. The model reports failure and changes nothing. The allocation pass never reaches that case, because it queues at most MAX_REGIONS regions.
- PriorityQueue.MaxHeap: the program's single global size counter becomes a `size` field of each heap. The queue that `distributeFood` declares on its stack, and leaves uninitialised, becomes a heap the caller passes in.
- Allocation.DistributeFood: the heap must be empty on entry. The C relies on the global counter being 0, which holds at program start and after every completed pass.
- Allocation.DistributeFood: the region count must be at most MAX_REGIONS. A larger count would overflow the C arrays. A negative count queues nothing, as the C loop does.
- Route graph: the allocation pass never reads the graph, in the C as in the model. Route weights are modelled only by InitGraph and AddEdge.
- Network.FoodNetwork.InitGraph: requires the count to be at most MAX_REGIONS. For a larger count the C loop writes past the end of the route matrix.
- Network.FoodNetwork.AddEdge: requires both indices below MAX_REGIONS. The C does no bounds check and an out-of-range index is undefined behaviour.
- Region ids: the demo never sets `Region.id`. The pass identifies a region by its index, so the field is carried but never read.
- Integer width: hunger levels and quantities are unbounded integers. The C only compares and copies them, so 32-bit wrap-around never arises. INT_MAX is the 32-bit value 2147483647.
- Ties: regions with equal hunger level may be served in either order. The contracts state only the non-increasing order, not the heap's exact tie-breaking.
- The demo's uninitialised route matrix: the cells outside the 3×3 block written by InitGraph are left unspecified, as in the C. The other region records start as zero records.
