/**
 * The allocation pass: every region with an index below the region count
 * goes into a fresh priority queue keyed by its hunger level; regions are
 * then served hungriest first, and serving a region hands out every
 * positive inventory slot of that region, food type by food type, setting
 * the slot to 0. What the C code prints is returned here as the sequence
 * of served region indices and the sequence of distribution events.
 */
module Allocation {
  import opened Network
  import opened PriorityQueue

  /** One distribution: `quantity` units of `foodType` handed to region `regionID`. */
  datatype Event = Event(regionID: int, foodType: int, quantity: int)

  /**
   * The events for region `r` whose inventory row is `row`, for the food
   * types below `f`: one event per positive slot, carrying that slot's
   * quantity, in ascending food-type order.
   */
  function RegionEvents(r: int, row: seq<int>, f: nat): (es: seq<Event>)
    requires f <= |row|
    ensures forall i :: 0 <= i < |es| ==>
              es[i].regionID == r && 0 <= es[i].foodType < f && es[i].quantity == row[es[i].foodType] > 0
  {
    if f == 0 then []
    else
      var earlier := RegionEvents(r, row, f - 1);
      if row[f - 1] > 0 then earlier + [Event(r, f - 1, row[f - 1])] else earlier
  }

  /** Every positive slot of the row below `f` is reported, with its quantity. */
  lemma {:induction false} RegionEventsComplete(r: int, row: seq<int>, f: nat)
    requires f <= |row|
    ensures forall ft :: 0 <= ft < f && row[ft] > 0 ==> Event(r, ft, row[ft]) in RegionEvents(r, row, f)
  {
    if f > 0 {
      RegionEventsComplete(r, row, f - 1);
    }
  }

  /** A region's events come in strictly ascending food-type order. */
  lemma {:induction false} RegionEventsAscending(r: int, row: seq<int>, f: nat)
    requires f <= |row|
    ensures forall i, j :: 0 <= i < j < |RegionEvents(r, row, f)| ==>
              RegionEvents(r, row, f)[i].foodType < RegionEvents(r, row, f)[j].foodType
  {
    if f > 0 {
      RegionEventsAscending(r, row, f - 1);
      var earlier := RegionEvents(r, row, f - 1);
      if row[f - 1] > 0 {
        var es := earlier + [Event(r, f - 1, row[f - 1])];
        assert RegionEvents(r, row, f) == es;
        forall i, j | 0 <= i < j < |es|
          ensures es[i].foodType < es[j].foodType
        {
          assert es[i] == earlier[i] && earlier[i].foodType < f - 1;
          if j < |earlier| {
            assert es[j] == earlier[j];
          }
        }
      }
    }
  }

  /** Every region index in `visited` selects a row of `stock`. */
  predicate RowsOf(visited: seq<int>, stock: seq<seq<int>>) {
    forall i :: 0 <= i < |visited| ==> 0 <= visited[i] < |stock|
  }

  /**
   * The events of a whole pass that serves the regions in `visited`, in
   * that order, from the inventory `stock` as it was before the pass.
   */
  function AllocationEvents(visited: seq<int>, stock: seq<seq<int>>): (es: seq<Event>)
    requires RowsOf(visited, stock)
  {
    if visited == [] then []
    else
      var r := visited[|visited| - 1];
      AllocationEvents(visited[..|visited| - 1], stock) + RegionEvents(r, stock[r], |stock[r]|)
  }

  /**
   * Every event of a pass goes to a served region and hands out a
   * positive slot of that region with its quantity from before the pass.
   */
  lemma {:induction false} EventsFromStock(visited: seq<int>, stock: seq<seq<int>>)
    requires RowsOf(visited, stock)
    ensures forall e :: e in AllocationEvents(visited, stock) ==>
              && e.regionID in visited
              && 0 <= e.foodType < |stock[e.regionID]|
              && e.quantity == stock[e.regionID][e.foodType] > 0
  {
    if visited != [] {
      var init, r := visited[..|visited| - 1], visited[|visited| - 1];
      EventsFromStock(init, stock);
      forall e | e in AllocationEvents(visited, stock)
        ensures e.regionID in visited && 0 <= e.foodType < |stock[e.regionID]|
        ensures e.quantity == stock[e.regionID][e.foodType] > 0
      {
        var tail := RegionEvents(r, stock[r], |stock[r]|);
        if e in AllocationEvents(init, stock) {
          assert e.regionID in init;
        } else {
          assert e in tail;
          var i :| 0 <= i < |tail| && tail[i] == e;
        }
      }
    }
  }

  /** The events of `es` that go to region `r`, in order. */
  function EventsFor(es: seq<Event>, r: int): (out: seq<Event>)
    ensures |out| <= |es|
  {
    if es == [] then []
    else if es[0].regionID == r then [es[0]] + EventsFor(es[1..], r)
    else EventsFor(es[1..], r)
  }

  /** The filter keeps exactly the events that go to region `r`. */
  lemma {:induction false} EventsForMembers(es: seq<Event>, r: int)
    ensures forall e :: e in EventsFor(es, r) <==> e in es && e.regionID == r
  {
    if es != [] {
      EventsForMembers(es[1..], r);
      assert es == [es[0]] + es[1..];
    }
  }

  lemma {:induction false} EventsForAppend(a: seq<Event>, b: seq<Event>, r: int)
    ensures EventsFor(a + b, r) == EventsFor(a, r) + EventsFor(b, r)
  {
    if a != [] {
      assert (a + b)[0] == a[0];
      assert (a + b)[1..] == a[1..] + b;
      EventsForAppend(a[1..], b, r);
    } else {
      assert a + b == b;
    }
  }

  /** A sequence whose events all go to region `r` is its own filter for `r`. */
  lemma {:induction false} EventsForAll(es: seq<Event>, r: int)
    requires forall i :: 0 <= i < |es| ==> es[i].regionID == r
    ensures EventsFor(es, r) == es
  {
    if es != [] {
      EventsForAll(es[1..], r);
    }
  }

  /** A sequence with no event for region `r` filters to nothing. */
  lemma {:induction false} EventsForNone(es: seq<Event>, r: int)
    requires forall i :: 0 <= i < |es| ==> es[i].regionID != r
    ensures EventsFor(es, r) == []
  {
    if es != [] {
      EventsForNone(es[1..], r);
    }
  }

  /** A region that was not served receives no event. */
  lemma {:induction false} EventsOfUnserved(visited: seq<int>, stock: seq<seq<int>>, r: int)
    requires RowsOf(visited, stock) && r !in visited
    ensures EventsFor(AllocationEvents(visited, stock), r) == []
  {
    if visited != [] {
      var init, last := visited[..|visited| - 1], visited[|visited| - 1];
      assert visited == init + [last];
      EventsStep(init, stock, last);
      EventsOfUnserved(init, stock, r);
      EventsForAppend(AllocationEvents(init, stock), RegionEvents(last, stock[last], |stock[last]|), r);
      EventsForNone(RegionEvents(last, stock[last], |stock[last]|), r);
    }
  }

  /**
   * When no region is served twice, the events for a served region are
   * exactly that region's positive slots in ascending food-type order, with
   * the quantities from before the pass.
   */
  lemma {:induction false} EventsOfServed(visited: seq<int>, stock: seq<seq<int>>, r: int)
    requires RowsOf(visited, stock) && r in visited
    requires forall i, j :: 0 <= i < j < |visited| ==> visited[i] != visited[j]
    ensures EventsFor(AllocationEvents(visited, stock), r) == RegionEvents(r, stock[r], |stock[r]|)
  {
    var init, last := visited[..|visited| - 1], visited[|visited| - 1];
    assert visited == init + [last];
    var tail := RegionEvents(last, stock[last], |stock[last]|);
    EventsStep(init, stock, last);
    EventsForAppend(AllocationEvents(init, stock), tail, r);
    if last == r {
      assert r !in init;
      EventsOfUnserved(init, stock, r);
      EventsForAll(tail, r);
    } else {
      EventsOfServed(init, stock, r);
      EventsForNone(tail, r);
    }
  }

  /** A row with no positive slot yields no event. */
  lemma {:induction false} NoPositiveSlot(r: int, row: seq<int>, f: nat)
    requires f <= |row| && forall ft :: 0 <= ft < f ==> row[ft] <= 0
    ensures RegionEvents(r, row, f) == []
  {
    if f > 0 {
      NoPositiveSlot(r, row, f - 1);
    }
  }

  /** A row whose only positive slot below `f` is `k` yields exactly one event. */
  lemma {:induction false} SinglePositiveSlot(r: int, row: seq<int>, f: nat, k: nat)
    requires k < f <= |row| && row[k] > 0
    requires forall ft :: 0 <= ft < f && ft != k ==> row[ft] <= 0
    ensures RegionEvents(r, row, f) == [Event(r, k, row[k])]
  {
    if f - 1 == k {
      NoPositiveSlot(r, row, k);
    } else {
      SinglePositiveSlot(r, row, f - 1, k);
    }
  }

  /** A pass over regions whose slots are all non-positive reports nothing. */
  lemma {:induction false} NothingLeftToReport(visited: seq<int>, stock: seq<seq<int>>)
    requires RowsOf(visited, stock)
    requires forall i, f :: 0 <= i < |visited| && 0 <= f < |stock[visited[i]]| ==> stock[visited[i]][f] <= 0
    ensures AllocationEvents(visited, stock) == []
  {
    if visited != [] {
      var r := visited[|visited| - 1];
      NothingLeftToReport(visited[..|visited| - 1], stock);
      NoPositiveSlot(r, stock[r], |stock[r]|);
    }
  }

  /** The queue entries of the first `n` regions: region index and hunger level. */
  function Pending(rs: seq<Region>, n: nat): (es: seq<Entry>)
    requires n <= |rs|
    ensures |es| == n
  {
    if n == 0 then [] else Pending(rs, n - 1) + [Entry(n - 1, rs[n - 1].hungerLevel)]
  }

  /** Each region below `n` is queued exactly once, and nothing else is queued. */
  lemma {:induction false} PendingCount(rs: seq<Region>, n: nat, e: Entry)
    requires n <= |rs|
    ensures multiset(Pending(rs, n))[e] == if 0 <= e.id < n && e.priority == rs[e.id].hungerLevel then 1 else 0
  {
    if n > 0 {
      PendingCount(rs, n - 1, e);
    }
  }

  lemma CountedTwice(s: seq<Entry>, i: nat, j: nat)
    requires i < j < |s| && s[i] == s[j]
    ensures multiset(s)[s[i]] >= 2
  {
    assert s == s[..i] + [s[i]] + s[i + 1..j] + [s[j]] + s[j + 1..];
  }

  /**
   * Entries drawn from the pending entries of the first `n` regions belong
   * to regions below `n`, carry those regions' hunger levels, and never
   * name a region twice.
   */
  lemma DrawnFromPending(es: seq<Entry>, rs: seq<Region>, n: nat)
    requires n <= |rs| && multiset(es) <= multiset(Pending(rs, n))
    ensures forall i :: 0 <= i < |es| ==> 0 <= es[i].id < n && es[i].priority == rs[es[i].id].hungerLevel
    ensures forall i, j :: 0 <= i < j < |es| ==> es[i].id != es[j].id
  {
    forall i | 0 <= i < |es|
      ensures 0 <= es[i].id < n && es[i].priority == rs[es[i].id].hungerLevel
    {
      PendingCount(rs, n, es[i]);
    }
    forall i, j | 0 <= i < j < |es|
      ensures es[i].id != es[j].id
    {
      if es[i].id == es[j].id {
        CountedTwice(es, i, j);
        PendingCount(rs, n, es[i]);
      }
    }
  }

  /** Entries that make up all pending entries cover every region below `n`. */
  lemma AllDrawn(es: seq<Entry>, rs: seq<Region>, n: nat, k: int)
    requires n <= |rs| && multiset(es) == multiset(Pending(rs, n))
    requires 0 <= k < n
    ensures exists i :: 0 <= i < |es| && es[i].id == k
  {
    var e := Entry(k, rs[k].hungerLevel);
    PendingCount(rs, n, e);
    assert e in multiset(es);
    var i :| 0 <= i < |es| && es[i] == e;
  }

  /**
   * The state of the serving loop: the entries served so far and the
   * entries still queued together make up the pending entries; each served
   * entry is at least as high as the next one served, and the last one
   * served is at least as high as every entry still queued.
   */
  ghost predicate Ranked(served: seq<Entry>, live: seq<Entry>, pending: seq<Entry>) {
    && multiset(served) + multiset(live) == multiset(pending)
    && (forall i :: 0 < i < |served| ==> served[i - 1].priority >= served[i].priority)
    && (served != [] ==> forall k :: 0 <= k < |live| ==> served[|served| - 1].priority >= live[k].priority)
  }

  /** Priorities that never rise from one entry to the next never rise further on either. */
  lemma {:induction false} NonIncreasing(s: seq<Entry>, i: nat, j: nat)
    requires forall k :: 0 < k < |s| ==> s[k - 1].priority >= s[k].priority
    requires i <= j < |s|
    ensures s[i].priority >= s[j].priority
    decreases j - i
  {
    if i < j {
      NonIncreasing(s, i + 1, j);
    }
  }

  /** Serving a queued entry that is at least as high as every queued entry keeps the loop state. */
  lemma RankedStep(served: seq<Entry>, live: seq<Entry>, rest: seq<Entry>, pending: seq<Entry>)
    requires Ranked(served, live, pending) && |live| > 0
    requires forall k :: 0 <= k < |live| ==> live[k].priority <= live[0].priority
    requires multiset(rest) == multiset(live) - multiset{live[0]}
    ensures Ranked(served + [live[0]], rest, pending)
  {
    var top := live[0];
    assert top in multiset(live);
    forall k | 0 <= k < |rest|
      ensures rest[k].priority <= top.priority
    {
      assert rest[k] in multiset(rest);
      assert rest[k] in live;
    }
    assert multiset(served + [top]) + multiset(rest) == multiset(pending);
  }

  /**
   * A service order for the first `n` regions so far: region indices below
   * `n`, none served twice, hunger levels non-increasing.
   */
  ghost predicate ServiceOrder(visited: seq<int>, rs: seq<Region>, n: nat) {
    && n <= |rs|
    && (forall i :: 0 <= i < |visited| ==> 0 <= visited[i] < n)
    && (forall i, j :: 0 <= i < j < |visited| ==> visited[i] != visited[j])
    && (forall i, j :: 0 <= i < j < |visited| ==> rs[visited[i]].hungerLevel >= rs[visited[j]].hungerLevel)
  }

  /**
   * The regions of the entries served so far, drawn in ranked order from
   * the pending entries, form a service order.
   */
  lemma ServedInOrder(served: seq<Entry>, live: seq<Entry>, visited: seq<int>, rs: seq<Region>, n: nat)
    requires n <= |rs| && Ranked(served, live, Pending(rs, n))
    requires |served| == |visited| && forall i :: 0 <= i < |visited| ==> visited[i] == served[i].id
    ensures ServiceOrder(visited, rs, n)
  {
    assert multiset(served) <= multiset(Pending(rs, n)) by {
      assert multiset(served) + multiset(live) == multiset(Pending(rs, n));
    }
    DrawnFromPending(served, rs, n);
    forall i, j | 0 <= i < j < |visited|
      ensures rs[visited[i]].hungerLevel >= rs[visited[j]].hungerLevel
    {
      NonIncreasing(served, i, j);
    }
  }

  /** Once the queue is empty, every region below `n` has been served. */
  lemma AllServed(served: seq<Entry>, visited: seq<int>, rs: seq<Region>, n: nat)
    requires n <= |rs| && Ranked(served, [], Pending(rs, n))
    requires |served| == |visited| && forall i :: 0 <= i < |visited| ==> visited[i] == served[i].id
    ensures forall k :: 0 <= k < n ==> k in visited
  {
    assert multiset(served) == multiset(Pending(rs, n));
    forall k | 0 <= k < n
      ensures k in visited
    {
      AllDrawn(served, rs, n, k);
      var i :| 0 <= i < |served| && served[i].id == k;
      assert visited[i] == k;
    }
  }

  /** The inventory as rows of slots, one row per region. */
  ghost function Slots(inventory: array2<int>): (s: seq<seq<int>>)
    reads inventory
    ensures |s| == inventory.Length0
    ensures forall r :: 0 <= r < |s| ==> |s[r]| == inventory.Length1
    ensures forall r, f :: 0 <= r < |s| && 0 <= f < inventory.Length1 ==> s[r][f] == inventory[r, f]
  {
    seq(inventory.Length0, r requires 0 <= r < inventory.Length0 reads inventory =>
      seq(inventory.Length1, f requires 0 <= f < inventory.Length1 reads inventory => inventory[r, f]))
  }

  /** The number of regions the pass visits: the region count, or none when it is negative. */
  function RegionCount(network: FoodNetwork): (n: nat)
    reads network
  {
    if network.numRegions < 0 then 0 else network.numRegions
  }

  /** Queues every region below `n` with its hunger level. */
  method QueueRegions(network: FoodNetwork, heap: MaxHeap, n: nat)
    requires network.Valid() && n <= MAX_REGIONS
    requires heap.Valid() && heap.size == 0
    modifies heap, heap.pq
    ensures heap.Valid() && heap.size == n
    ensures multiset(heap.Live()) == multiset(Pending(network.regions[..], n))
  {
    ghost var rs := network.regions[..];
    var i := 0;
    while i < n
      invariant 0 <= i <= n
      invariant heap.Valid() && heap.size == i
      invariant multiset(heap.Live()) == multiset(Pending(rs, i))
    {
      var ok := heap.Insert(i, network.regions[i].hungerLevel);
      i := i + 1;
    }
  }

  /**
   * The inventory `inventory` is `stock` with every positive slot of the
   * regions in `visited` set to 0.
   */
  ghost predicate Drained(inventory: array2<int>, stock: seq<seq<int>>, visited: seq<int>)
    reads inventory
  {
    && inventory.Length0 == MAX_REGIONS && inventory.Length1 == MAX_FOOD_TYPES
    && |stock| == MAX_REGIONS && (forall r :: 0 <= r < MAX_REGIONS ==> |stock[r]| == MAX_FOOD_TYPES)
    && forall r, f :: 0 <= r < MAX_REGIONS && 0 <= f < MAX_FOOD_TYPES ==>
         inventory[r, f] == if r in visited && stock[r][f] > 0 then 0 else stock[r][f]
  }

  /**
   * After serving exactly the regions below `n`, their positive slots are 0
   * and every other slot is as in `stock`.
   */
  lemma DrainedAll(inventory: array2<int>, stock: seq<seq<int>>, visited: seq<int>, n: nat)
    requires Drained(inventory, stock, visited)
    requires forall i :: 0 <= i < |visited| ==> 0 <= visited[i] < n
    requires forall k :: 0 <= k < n ==> k in visited
    ensures forall r, f :: 0 <= r < MAX_REGIONS && 0 <= f < MAX_FOOD_TYPES ==>
              inventory[r, f] == if r < n && stock[r][f] > 0 then 0 else stock[r][f]
  {
    forall r, f | 0 <= r < MAX_REGIONS && 0 <= f < MAX_FOOD_TYPES
      ensures inventory[r, f] == if r < n && stock[r][f] > 0 then 0 else stock[r][f]
    {
      assert r in visited <==> r < n;
    }
  }

  /**
   * The inventory side of the serving loop after the rounds `visited`: the
   * served regions are drained and `events` are their events.
   */
  ghost predicate StockState(inventory: array2<int>, stock: seq<seq<int>>, visited: seq<int>, events: seq<Event>)
    reads inventory
  {
    && Drained(inventory, stock, visited)
    && RowsOf(visited, stock) && events == AllocationEvents(visited, stock)
  }

  /** Row `r` of the inventory: the stock of each food type for that region. */
  ghost function Row(inventory: array2<int>, r: int): (row: seq<int>)
    requires 0 <= r < inventory.Length0
    reads inventory
    ensures |row| == inventory.Length1
    ensures forall f :: 0 <= f < |row| ==> row[f] == inventory[r, f]
  {
    seq(inventory.Length1, f requires 0 <= f < inventory.Length1 reads inventory => inventory[r, f])
  }

  /**
   * Serves region `r`: scans its food types in ascending order, reports
   * each positive slot and sets it to 0; no other slot changes.
   */
  method ServeRegion(inventory: array2<int>, r: int) returns (es: seq<Event>)
    requires inventory.Length0 == MAX_REGIONS && inventory.Length1 == MAX_FOOD_TYPES
    requires 0 <= r < MAX_REGIONS
    modifies inventory
    ensures es == RegionEvents(r, old(Row(inventory, r)), MAX_FOOD_TYPES)
    ensures forall q, f :: 0 <= q < MAX_REGIONS && 0 <= f < MAX_FOOD_TYPES ==>
              inventory[q, f] == if q == r && old(inventory[q, f]) > 0 then 0 else old(inventory[q, f])
  {
    ghost var row := Row(inventory, r);
    es := [];
    var foodType := 0;
    while foodType < MAX_FOOD_TYPES
      invariant 0 <= foodType <= MAX_FOOD_TYPES
      invariant es == RegionEvents(r, row, foodType)
      invariant forall q, f :: 0 <= q < MAX_REGIONS && 0 <= f < MAX_FOOD_TYPES ==>
                  inventory[q, f] == if q == r && f < foodType && old(inventory[q, f]) > 0 then 0 else old(inventory[q, f])
    {
      assert inventory[r, foodType] == row[foodType];
      if inventory[r, foodType] > 0 {
        es := es + [Event(r, foodType, inventory[r, foodType])];
        inventory[r, foodType] := 0;
      }
      foodType := foodType + 1;
    }
  }

  /**
   * Serving region `r`, not served before, during the pass: its row is
   * still the opening stock, so it reports exactly that row's events, and
   * the inventory side of the loop moves on by one round.
   */
  method ServeUnserved(inventory: array2<int>, r: int, ghost stock: seq<seq<int>>, ghost visited: seq<int>,
                       ghost events: seq<Event>)
    returns (es: seq<Event>)
    requires StockState(inventory, stock, visited, events) && 0 <= r < MAX_REGIONS && r !in visited
    modifies inventory
    ensures es == RegionEvents(r, stock[r], MAX_FOOD_TYPES)
    ensures StockState(inventory, stock, visited + [r], events + es)
  {
    assert Row(inventory, r) == stock[r];
    es := ServeRegion(inventory, r);
    assert forall q :: q in visited + [r] <==> q in visited || q == r;
    EventsStep(visited, stock, r);
  }

  /** The served entries and the served region indices correspond position by position. */
  ghost predicate Linked(served: seq<Entry>, visited: seq<int>) {
    |served| == |visited| && forall i :: 0 <= i < |visited| ==> visited[i] == served[i].id
  }

  /**
   * The queue side of the serving loop after the rounds `served`, with
   * `live` still queued: served and queued entries are ranked, and the
   * served region indices are the served entries' ids.
   */
  ghost predicate Progress(served: seq<Entry>, live: seq<Entry>, visited: seq<int>, rs: seq<Region>, n: nat) {
    && n <= |rs|
    && Ranked(served, live, Pending(rs, n)) && Linked(served, visited)
  }

  /**
   * Taking a highest entry off the queue moves the loop on by one round:
   * its region lies below `n` and has not been served yet.
   */
  lemma ProgressStep(served: seq<Entry>, live: seq<Entry>, rest: seq<Entry>, visited: seq<int>, rs: seq<Region>, n: nat)
    requires Progress(served, live, visited, rs, n) && |live| > 0
    requires forall k :: 0 <= k < |live| ==> live[k].priority <= live[0].priority
    requires multiset(rest) == multiset(live) - multiset{live[0]}
    ensures 0 <= live[0].id < n && live[0].id !in visited
    ensures Progress(served + [live[0]], rest, visited + [live[0].id], rs, n)
  {
    RankedStep(served, live, rest, Pending(rs, n));
    var top := live[0];
    ServedInOrder(served + [top], rest, visited + [top.id], rs, n);
    assert (visited + [top.id])[|visited|] == top.id;
    forall i | 0 <= i < |visited|
      ensures visited[i] != top.id
    {
      assert (visited + [top.id])[i] == visited[i];
    }
  }

  /**
   * Takes the hungriest queued region: it lies below `n`, has not been
   * served, and extends the service order.
   */
  method TakeNext(heap: MaxHeap, ghost served: seq<Entry>, ghost visited: seq<int>, ghost rs: seq<Region>, ghost n: nat)
    returns (regionID: int, ghost top: Entry)
    requires heap.Valid() && Progress(served, heap.Live(), visited, rs, n) && heap.size > 0
    modifies heap, heap.pq
    ensures heap.Valid() && Progress(served + [top], heap.Live(), visited + [regionID], rs, n)
    ensures heap.size == old(heap.size) - 1
    ensures 0 <= regionID < n && regionID !in visited
  {
    ghost var live := heap.Live();
    top := live[0];
    regionID := heap.ExtractMax();
    ProgressStep(served, live, heap.Live(), visited, rs, n);
  }

  /**
   * Serves queued regions, hungriest first, until the queue is empty; the
   * queue holds the pending entries of the first `n` regions on entry.
   * Returns the region indices in the order served and their events.
   */
  method ServeAll(heap: MaxHeap, inventory: array2<int>, ghost rs: seq<Region>, ghost n: nat)
    returns (visited: seq<int>, events: seq<Event>)
    requires n <= MAX_REGIONS && n <= |rs|
    requires heap.Valid() && multiset(heap.Live()) == multiset(Pending(rs, n))
    requires inventory.Length0 == MAX_REGIONS && inventory.Length1 == MAX_FOOD_TYPES
    modifies inventory, heap, heap.pq
    ensures heap.Valid() && heap.size == 0
    ensures |visited| == n && ServiceOrder(visited, rs, n) && forall k :: 0 <= k < n ==> k in visited
    ensures RowsOf(visited, old(Slots(inventory)))
    ensures events == AllocationEvents(visited, old(Slots(inventory)))
    ensures forall r, f :: 0 <= r < MAX_REGIONS && 0 <= f < MAX_FOOD_TYPES ==>
              inventory[r, f] == if r < n && old(inventory[r, f]) > 0 then 0 else old(inventory[r, f])
  {
    ghost var stock := Slots(inventory);
    OpeningStock(inventory);
    OpeningQueue(heap.Live(), rs, n);
    ghost var served;
    visited, events, served := ServeLoop(heap, inventory, rs, n, stock);
    PassComplete(inventory, stock, served, visited, events, rs, n);
  }

  /** The serving loop proper, from the opening state of both sides to an empty queue. */
  method ServeLoop(heap: MaxHeap, inventory: array2<int>, ghost rs: seq<Region>, ghost n: nat, ghost stock: seq<seq<int>>)
    returns (visited: seq<int>, events: seq<Event>, ghost served: seq<Entry>)
    requires n <= MAX_REGIONS && heap.Valid() && Progress([], heap.Live(), [], rs, n)
    requires StockState(inventory, stock, [], [])
    modifies inventory, heap, heap.pq
    ensures heap.Valid() && heap.size == 0 && Progress(served, [], visited, rs, n)
    ensures StockState(inventory, stock, visited, events)
  {
    served, visited, events := [], [], [];
    ghost var live := heap.Live();
    while heap.size > 0
      invariant heap.Valid() && heap.Live() == live
      invariant Progress(served, live, visited, rs, n)
      invariant StockState(inventory, stock, visited, events)
      decreases heap.size
    {
      var regionID, top := TakeNext(heap, served, visited, rs, n);
      live := heap.Live();
      var es := ServeUnserved(inventory, regionID, stock, visited, events);
      served, visited, events := served + [top], visited + [regionID], events + es;
    }
  }

  /**
   * Once the queue is empty, the served regions are exactly those below
   * `n`, in a service order, and exactly their positive slots are drained.
   */
  lemma PassComplete(inventory: array2<int>, stock: seq<seq<int>>, served: seq<Entry>, visited: seq<int>,
                     events: seq<Event>, rs: seq<Region>, n: nat)
    requires Progress(served, [], visited, rs, n) && StockState(inventory, stock, visited, events)
    ensures |visited| == n && ServiceOrder(visited, rs, n) && forall k :: 0 <= k < n ==> k in visited
    ensures forall r, f :: 0 <= r < MAX_REGIONS && 0 <= f < MAX_FOOD_TYPES ==>
              inventory[r, f] == if r < n && stock[r][f] > 0 then 0 else stock[r][f]
  {
    AllServed(served, visited, rs, n);
    ServedInOrder(served, [], visited, rs, n);
    DrainedAll(inventory, stock, visited, n);
    assert |multiset(served)| == |multiset(Pending(rs, n))|;
  }

  /** Before any round, nothing is drained and no event has been reported. */
  lemma OpeningStock(inventory: array2<int>)
    requires inventory.Length0 == MAX_REGIONS && inventory.Length1 == MAX_FOOD_TYPES
    ensures StockState(inventory, Slots(inventory), [], [])
  {
  }

  /** Before any round, every pending entry is still queued. */
  lemma OpeningQueue(live: seq<Entry>, rs: seq<Region>, n: nat)
    requires n <= |rs| && multiset(live) == multiset(Pending(rs, n))
    ensures Progress([], live, [], rs, n)
  {
  }

  /** Serving one more region appends that region's events. */
  lemma EventsStep(visited: seq<int>, stock: seq<seq<int>>, r: int)
    requires RowsOf(visited, stock) && 0 <= r < |stock|
    ensures RowsOf(visited + [r], stock)
    ensures AllocationEvents(visited + [r], stock) == AllocationEvents(visited, stock) + RegionEvents(r, stock[r], |stock[r]|)
  {
    assert (visited + [r])[..|visited|] == visited;
  }

  /**
   * The allocation pass over the first `numRegions` regions, with `heap`
   * playing the queue whose size counter must be zero on entry. Returns
   * the region indices in the order served and the distribution events.
   */
  method DistributeFood(network: FoodNetwork, inventory: array2<int>, heap: MaxHeap)
    returns (visited: seq<int>, events: seq<Event>)
    requires network.Valid()
    requires inventory.Length0 == MAX_REGIONS && inventory.Length1 == MAX_FOOD_TYPES
    requires heap.Valid() && heap.size == 0
    modifies inventory, heap, heap.pq
    ensures heap.Valid() && heap.size == 0
    ensures |visited| == RegionCount(network) && ServiceOrder(visited, network.regions[..], RegionCount(network))
    ensures forall k :: 0 <= k < RegionCount(network) ==> k in visited
    ensures RowsOf(visited, old(Slots(inventory)))
    ensures events == AllocationEvents(visited, old(Slots(inventory)))
    ensures forall r, f :: 0 <= r < MAX_REGIONS && 0 <= f < MAX_FOOD_TYPES ==>
              inventory[r, f] == if r < RegionCount(network) && old(inventory[r, f]) > 0 then 0 else old(inventory[r, f])
  {
    var n := if network.numRegions < 0 then 0 else network.numRegions;
    QueueRegions(network, heap, n);
    visited, events := ServeAll(heap, inventory, network.regions[..], n);
  }

  /**
   * Running the pass a second time on the same network and inventory hands
   * out nothing: the first pass zeroed every positive slot it could reach.
   */
  method DistributeTwice(network: FoodNetwork, inventory: array2<int>, heap: MaxHeap)
    returns (first: seq<Event>, second: seq<Event>)
    requires network.Valid()
    requires inventory.Length0 == MAX_REGIONS && inventory.Length1 == MAX_FOOD_TYPES
    requires heap.Valid() && heap.size == 0
    modifies inventory, heap, heap.pq
    ensures second == []
  {
    var visited, again;
    visited, first := DistributeFood(network, inventory, heap);
    ghost var drained := Slots(inventory);
    assert forall r, f :: 0 <= r < RegionCount(network) && 0 <= f < MAX_FOOD_TYPES ==> drained[r][f] <= 0;
    again, second := DistributeFood(network, inventory, heap);
    NothingLeftToReport(again, drained);
  }
}
