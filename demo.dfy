/**
 * The scenario the program runs: three regions with hunger levels 5, 8
 * and 3, and two stocked slots (food type 1 for the first region, food
 * type 2 for the second). The hungriest region is served first, the region
 * with nothing in stock produces no event, and every slot ends empty.
 */
module Demo {
  import opened Network
  import opened PriorityQueue
  import opened Allocation

  /** With hunger levels 5, 8 and 3 for regions 0, 1 and 2, only one service order exists. */
  lemma OnlyServiceOrder(visited: seq<int>, rs: seq<Region>)
    requires 3 <= |rs| && rs[0].hungerLevel == 5 && rs[1].hungerLevel == 8 && rs[2].hungerLevel == 3
    requires |visited| == 3 && ServiceOrder(visited, rs, 3)
    requires forall k :: 0 <= k < 3 ==> k in visited
    ensures visited == [1, 0, 2]
  {
    assert 1 in visited && 2 in visited;
    assert visited[0] == 1 by {
      var i :| 0 <= i < 3 && visited[i] == 1;
      assert i == 0 || rs[visited[0]].hungerLevel >= rs[visited[i]].hungerLevel;
    }
    assert visited[2] == 2 by {
      var j :| 0 <= j < 3 && visited[j] == 2;
      assert j == 2 || rs[visited[j]].hungerLevel >= rs[visited[2]].hungerLevel;
    }
  }

  /** Serving three regions in turn reports their events one region after another. */
  lemma ThreeRounds(stock: seq<seq<int>>, a: int, b: int, c: int)
    requires 0 <= a < |stock| && 0 <= b < |stock| && 0 <= c < |stock|
    ensures RowsOf([a, b, c], stock)
    ensures AllocationEvents([a, b, c], stock) ==
              RegionEvents(a, stock[a], |stock[a]|) + RegionEvents(b, stock[b], |stock[b]|) + RegionEvents(c, stock[c], |stock[c]|)
  {
    var first := [] + [a];
    EventsStep([], stock, a);
    var second := first + [b];
    EventsStep(first, stock, b);
    EventsStep(second, stock, c);
    assert second + [c] == [a, b, c];
  }

  /** The scenario's stock: 100 units of food type 1 for region 0, 200 of food type 2 for region 1. */
  ghost predicate ScenarioStock(stock: seq<seq<int>>) {
    && |stock| == MAX_REGIONS && (forall r :: 0 <= r < MAX_REGIONS ==> |stock[r]| == MAX_FOOD_TYPES)
    && forall r, f :: 0 <= r < MAX_REGIONS && 0 <= f < MAX_FOOD_TYPES ==>
         stock[r][f] == if r == 0 && f == 1 then 100 else if r == 1 && f == 2 then 200 else 0
  }

  /** The events of serving regions 1, 0 and 2, in that order, from the scenario's stock. */
  lemma ScenarioEvents(stock: seq<seq<int>>)
    requires ScenarioStock(stock)
    ensures RowsOf([1, 0, 2], stock)
    ensures AllocationEvents([1, 0, 2], stock) == [Event(1, 2, 200), Event(0, 1, 100)]
  {
    SinglePositiveSlot(1, stock[1], MAX_FOOD_TYPES, 2);
    SinglePositiveSlot(0, stock[0], MAX_FOOD_TYPES, 1);
    NoPositiveSlot(2, stock[2], MAX_FOOD_TYPES);
    ThreeRounds(stock, 1, 0, 2);
  }

  /** After a pass over the three regions, the scenario's stock is all gone. */
  lemma ScenarioEmptied(before: seq<seq<int>>, after: seq<seq<int>>)
    requires ScenarioStock(before)
    requires |after| == MAX_REGIONS && forall r :: 0 <= r < MAX_REGIONS ==> |after[r]| == MAX_FOOD_TYPES
    requires forall r, f :: 0 <= r < MAX_REGIONS && 0 <= f < MAX_FOOD_TYPES ==>
               after[r][f] == if r < 3 && before[r][f] > 0 then 0 else before[r][f]
    ensures forall r, f :: 0 <= r < MAX_REGIONS && 0 <= f < MAX_FOOD_TYPES ==> after[r][f] == 0
  {
  }

  /** The three regions A, B and C with hunger levels 5, 8 and 3, and their route table reset. */
  method ScenarioNetwork() returns (network: FoodNetwork)
    ensures fresh(network) && network.Valid() && network.numRegions == 3
    ensures network.regions[0].hungerLevel == 5 && network.regions[1].hungerLevel == 8
    ensures network.regions[2].hungerLevel == 3
  {
    network := new FoodNetwork();
    network.InitGraph(3);
    network.regions[0] := network.regions[0].(name := "Region A", hungerLevel := 5);
    network.regions[1] := network.regions[1].(name := "Region B", hungerLevel := 8);
    network.regions[2] := network.regions[2].(name := "Region C", hungerLevel := 3);
  }

  /** An empty inventory except for 100 units of food type 1 at region 0 and 200 of food type 2 at region 1. */
  method ScenarioInventory() returns (inventory: array2<int>)
    ensures fresh(inventory) && inventory.Length0 == MAX_REGIONS && inventory.Length1 == MAX_FOOD_TYPES
    ensures ScenarioStock(Slots(inventory))
  {
    inventory := new int[MAX_REGIONS, MAX_FOOD_TYPES]((_, _) => 0);
    inventory[0, 1] := 100;
    inventory[1, 2] := 200;
  }

  /**
   * Builds the three-region network and the inventory, runs the allocation
   * pass, and returns the service order, the events and the inventory.
   */
  method Scenario() returns (visited: seq<int>, events: seq<Event>, inventory: array2<int>)
    ensures visited == [1, 0, 2]
    ensures events == [Event(1, 2, 200), Event(0, 1, 100)]
    ensures inventory.Length0 == MAX_REGIONS && inventory.Length1 == MAX_FOOD_TYPES
    ensures forall r, f :: 0 <= r < MAX_REGIONS && 0 <= f < MAX_FOOD_TYPES ==> inventory[r, f] == 0
  {
    var network := ScenarioNetwork();
    inventory := ScenarioInventory();
    var heap := new MaxHeap();
    ghost var stock := Slots(inventory);
    ghost var rs := network.regions[..];
    ScenarioEvents(stock);
    visited, events := DistributeFood(network, inventory, heap);
    OnlyServiceOrder(visited, rs);
    ScenarioEmptied(stock, Slots(inventory));
  }
}
