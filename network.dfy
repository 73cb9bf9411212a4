/**
 * The static part of the food network: the fixed capacities, the region
 * record and the route graph (an adjacency matrix with a "no route"
 * sentinel). The allocation pass only reads the regions and their count.
 */
module Network {

  /** Fixed capacities of the network and of the priority queue. */
  const MAX_REGIONS: nat := 100
  const MAX_FOOD_TYPES: nat := 10

  /** Largest 32-bit signed integer, used as the "no direct route" weight. */
  const INT_MAX: int := 0x7fff_ffff

  /**
   * A region. Its identity in the allocation pass is its index in the
   * network's region array; `id` is carried but never consulted.
   */
  datatype Region = Region(id: int, name: string, hungerLevel: int)

  class FoodNetwork {
    const graph: array2<int>
    const regions: array<Region>
    var numRegions: int

    ghost predicate Valid()
      reads this
    {
      && graph.Length0 == MAX_REGIONS
      && graph.Length1 == MAX_REGIONS
      && regions.Length == MAX_REGIONS
      && numRegions <= MAX_REGIONS
    }

    /** A network with no regions; every region slot holds a zero record. */
    constructor ()
      ensures Valid() && numRegions == 0
      ensures fresh(graph) && fresh(regions)
      ensures forall i :: 0 <= i < MAX_REGIONS ==> regions[i] == Region(0, "", 0)
    {
      graph := new int[MAX_REGIONS, MAX_REGIONS];
      regions := new Region[MAX_REGIONS](_ => Region(0, "", 0));
      numRegions := 0;
    }

    /** The route weights between the first `n` regions agree in both directions. */
    ghost predicate SymmetricUpTo(n: int)
      reads this, graph
      requires Valid()
      requires n <= MAX_REGIONS
    {
      forall i, j :: 0 <= i < n && 0 <= j < n ==> graph[i, j] == graph[j, i]
    }

    /**
     * Records the region count and marks every pair among the first `n`
     * regions as having no direct route; the rest of the matrix is untouched.
     */
    method InitGraph(n: int)
      requires Valid()
      requires n <= MAX_REGIONS
      modifies this`numRegions, graph
      ensures Valid() && numRegions == n
      ensures forall i, j :: 0 <= i < n && 0 <= j < n ==> graph[i, j] == INT_MAX
      ensures forall i, j :: 0 <= i < MAX_REGIONS && 0 <= j < MAX_REGIONS && !(i < n && j < n) ==>
                graph[i, j] == old(graph[i, j])
      ensures SymmetricUpTo(n)
    {
      numRegions := n;
      var i := 0;
      while i < n
        invariant 0 <= i <= if n < 0 then 0 else n
        invariant numRegions == n
        invariant forall r, c :: 0 <= r < i && 0 <= c < n ==> graph[r, c] == INT_MAX
        invariant forall r, c :: 0 <= r < MAX_REGIONS && 0 <= c < MAX_REGIONS && !(r < i && c < n) ==>
                    graph[r, c] == old(graph[r, c])
      {
        var j := 0;
        while j < n
          invariant 0 <= j <= n
          invariant numRegions == n
          invariant forall r, c :: 0 <= r < i && 0 <= c < n ==> graph[r, c] == INT_MAX
          invariant forall c :: 0 <= c < j ==> graph[i, c] == INT_MAX
          invariant forall r, c :: 0 <= r < MAX_REGIONS && 0 <= c < MAX_REGIONS && !(r < i && c < n) && !(r == i && c < j) ==>
                      graph[r, c] == old(graph[r, c])
        {
          graph[i, j] := INT_MAX;
          j := j + 1;
        }
        i := i + 1;
      }
    }

    /** Sets the weight of the route between `src` and `dest` in both directions. */
    method AddEdge(src: int, dest: int, weight: int)
      requires Valid()
      requires 0 <= src < MAX_REGIONS && 0 <= dest < MAX_REGIONS
      modifies graph
      ensures Valid()
      ensures graph[src, dest] == weight && graph[dest, src] == weight
      ensures forall i, j ::
                (0 <= i < MAX_REGIONS && 0 <= j < MAX_REGIONS && !(i == src && j == dest) && !(i == dest && j == src))
                ==> graph[i, j] == old(graph[i, j])
      ensures forall n :: n <= MAX_REGIONS && old(SymmetricUpTo(n)) ==> SymmetricUpTo(n)
    {
      graph[src, dest] := weight;
      graph[dest, src] := weight;
    }
  }
}
