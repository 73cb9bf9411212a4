/**
 * The bounded max-priority queue: an array-backed binary heap of
 * (region id, hunger level) entries with room for MAX_REGIONS of them.
 * The live entries are the first `size` slots of the array; the children
 * of slot p are slots 2p + 1 and 2p + 2.
 */
module PriorityQueue {
  import opened Network

  /** One queued region: its id and its hunger level at insertion time. */
  datatype Entry = Entry(id: int, priority: int)

  /** Slot c is a child of slot p in the implicit binary tree. */
  predicate IsChild(c: int, p: int) {
    c == 2 * p + 1 || c == 2 * p + 2
  }

  /** Heap order on the first n slots of s: no entry is higher than its parent. */
  ghost predicate IsHeap(s: seq<Entry>, n: nat) {
    && n <= |s|
    && forall p, c {:trigger IsChild(c, p)} ::
         0 <= p < n && 0 <= c < n && IsChild(c, p) ==> s[p].priority >= s[c].priority
  }

  /**
   * Heap order on the first n slots around the moving slot `h` of a
   * sift-up: every edge is ordered except the one from `h` up to its parent,
   * and the parent of `h` also dominates the children of `h`.
   */
  ghost predicate HeapAboveHole(s: seq<Entry>, n: nat, h: nat) {
    && n <= |s|
    && (forall p, c {:trigger IsChild(c, p)} ::
          0 <= p < n && 0 <= c < n && IsChild(c, p) && c != h ==> s[p].priority >= s[c].priority)
    && (forall g, c {:trigger IsChild(h, g), IsChild(c, h)} ::
          0 <= g < n && 0 <= c < n && IsChild(h, g) && IsChild(c, h) ==> s[g].priority >= s[c].priority)
  }

  /**
   * Heap order on the first n slots around the moving slot `h` of a
   * sift-down: every edge is ordered except those from `h` down to its
   * children, and the parent of `h` also dominates the children of `h`.
   */
  ghost predicate HeapBelowHole(s: seq<Entry>, n: nat, h: nat) {
    && n <= |s|
    && (forall p, c {:trigger IsChild(c, p)} ::
          0 <= p < n && 0 <= c < n && IsChild(c, p) && p != h ==> s[p].priority >= s[c].priority)
    && (forall g, c {:trigger IsChild(h, g), IsChild(c, h)} ::
          0 <= g < n && 0 <= c < n && IsChild(h, g) && IsChild(c, h) ==> s[g].priority >= s[c].priority)
  }

  /** `s` with the entries in slots `i` and `j` exchanged. */
  function Swap(s: seq<Entry>, i: nat, j: nat): (t: seq<Entry>)
    requires i < |s| && j < |s|
    ensures |t| == |s| && t[i] == s[j] && t[j] == s[i]
    ensures forall k :: 0 <= k < |s| && k != i && k != j ==> t[k] == s[k]
  {
    s[i := s[j]][j := s[i]]
  }

  /** Exchanging two live slots keeps the same live entries. */
  lemma SwapIsPermutation(s: seq<Entry>, n: nat, i: nat, j: nat)
    requires i < n && j < n && n <= |s|
    ensures multiset(Swap(s, i, j)[..n]) == multiset(s[..n])
  {
    assert Swap(s, i, j)[..n] == s[..n][i := s[j]][j := s[i]];
  }

  /** In a heap the root is at least as high as slot k: follow the parent chain from k. */
  lemma {:induction false} RootIsMax(s: seq<Entry>, n: nat, k: nat)
    requires IsHeap(s, n) && k < n
    ensures s[0].priority >= s[k].priority
    decreases k
  {
    if k > 0 {
      var p := (k - 1) / 2;
      assert IsChild(k, p);
      RootIsMax(s, n, p);
    }
  }

  /** The root of a non-empty heap is at least as high as every live entry. */
  lemma RootDominates(s: seq<Entry>, n: nat)
    requires IsHeap(s, n) && n > 0
    ensures forall e :: e in s[..n] ==> e.priority <= s[0].priority
  {
    forall e | e in s[..n]
      ensures e.priority <= s[0].priority
    {
      var k :| 0 <= k < n && s[k] == e;
      RootIsMax(s, n, k);
    }
  }

  /** Writing a new entry just past a heap leaves heap order broken at most above it. */
  lemma AppendStartsSiftUp(s: seq<Entry>, n: nat, e: Entry)
    requires IsHeap(s, n) && n < |s|
    ensures HeapAboveHole(s[n := e], n + 1, n)
    ensures multiset(s[n := e][..n + 1]) == multiset(s[..n]) + multiset{e}
  {
    assert s[n := e][..n + 1] == s[..n] + [e];
  }

  /** One sift-up step: exchanging the slot with a strictly lower parent moves the slot up. */
  lemma SiftUpStep(s: seq<Entry>, n: nat, h: nat)
    requires 0 < h < n && HeapAboveHole(s, n, h)
    requires s[(h - 1) / 2].priority < s[h].priority
    ensures HeapAboveHole(Swap(s, h, (h - 1) / 2), n, (h - 1) / 2)
  {
    var p := (h - 1) / 2;
    assert IsChild(h, p);
    var t := Swap(s, h, p);
    forall q, c | 0 <= q < n && 0 <= c < n && IsChild(c, q) && c != p
      ensures t[q].priority >= t[c].priority
    {
      if c == h {
        assert q == p;
      } else if q == p {
        assert s[q].priority >= s[c].priority;
      } else if q == h {
        assert s[p].priority >= s[c].priority;
      } else {
        assert s[q].priority >= s[c].priority;
      }
    }
    forall g, c | 0 <= g < n && 0 <= c < n && IsChild(p, g) && IsChild(c, p)
      ensures t[g].priority >= t[c].priority
    {
      assert s[g].priority >= s[p].priority;
      if c != h {
        assert s[p].priority >= s[c].priority;
      }
    }
  }

  /** A sift-up ends in a heap once the slot is the root or its parent is at least as high. */
  lemma SiftUpDone(s: seq<Entry>, n: nat, h: nat)
    requires h < n && HeapAboveHole(s, n, h)
    requires h > 0 ==> s[(h - 1) / 2].priority >= s[h].priority
    ensures IsHeap(s, n)
  {
    forall p, c | 0 <= p < n && 0 <= c < n && IsChild(c, p)
      ensures s[p].priority >= s[c].priority
    {
      if c == h {
        assert p == (h - 1) / 2;
      }
    }
  }

  /**
   * Moving the last live entry of a heap to the root drops exactly the old
   * root and leaves heap order broken at most below the root.
   */
  lemma LastToRootStartsSiftDown(s: seq<Entry>, n: nat)
    requires IsHeap(s, n) && n > 0
    ensures HeapBelowHole(s[0 := s[n - 1]], n - 1, 0)
    ensures multiset(s[0 := s[n - 1]][..n - 1]) == multiset(s[..n]) - multiset{s[0]}
  {
    var t := s[0 := s[n - 1]];
    forall p, c | 0 <= p < n - 1 && 0 <= c < n - 1 && IsChild(c, p) && p != 0
      ensures t[p].priority >= t[c].priority
    {
      assert s[p].priority >= s[c].priority;
    }
    if n > 1 {
      assert s[..n] == [s[0]] + s[1..n - 1] + [s[n - 1]];
      assert t[..n - 1] == [s[n - 1]] + s[1..n - 1];
    }
  }

  /**
   * One sift-down step: exchanging the slot with its larger child, when that
   * child is strictly higher, moves the slot down to that child.
   */
  lemma SiftDownStep(s: seq<Entry>, n: nat, h: nat, m: nat)
    requires m < n && IsChild(m, h) && HeapBelowHole(s, n, h)
    requires s[m].priority > s[h].priority
    requires 2 * h + 1 < n ==> s[m].priority >= s[2 * h + 1].priority
    requires 2 * h + 2 < n ==> s[m].priority >= s[2 * h + 2].priority
    ensures HeapBelowHole(Swap(s, h, m), n, m)
  {
    var t := Swap(s, h, m);
    forall q, c | 0 <= q < n && 0 <= c < n && IsChild(c, q) && q != m
      ensures t[q].priority >= t[c].priority
    {
      if q == h {
        assert s[m].priority >= s[c].priority;
      } else if c == h {
        assert s[q].priority >= s[m].priority;
      } else {
        assert s[q].priority >= s[c].priority;
      }
    }
    forall g, c | 0 <= g < n && 0 <= c < n && IsChild(m, g) && IsChild(c, m)
      ensures t[g].priority >= t[c].priority
    {
      assert g == h;
      assert s[m].priority >= s[c].priority;
    }
  }

  /** A sift-down ends in a heap once no child of the slot is strictly higher. */
  lemma SiftDownDone(s: seq<Entry>, n: nat, h: nat)
    requires HeapBelowHole(s, n, h)
    requires 2 * h + 1 < n ==> s[h].priority >= s[2 * h + 1].priority
    requires 2 * h + 2 < n ==> s[h].priority >= s[2 * h + 2].priority
    ensures IsHeap(s, n)
  {
  }

  /**
   * One iteration of the sift-up loop on the array contents `s`, whose hole
   * `h` stands for `e`: the parent moves down into the hole and the hole
   * moves up, keeping the same live entries.
   */
  lemma SiftUpMove(s: seq<Entry>, n: nat, h: nat, e: Entry)
    requires 0 < h < n <= |s| && HeapAboveHole(s[h := e], n, h)
    requires s[(h - 1) / 2].priority < e.priority
    ensures HeapAboveHole(s[h := s[(h - 1) / 2]][(h - 1) / 2 := e], n, (h - 1) / 2)
    ensures multiset(s[h := s[(h - 1) / 2]][(h - 1) / 2 := e][..n]) == multiset(s[h := e][..n])
  {
    var p := (h - 1) / 2;
    var t := s[h := e];
    assert Swap(t, h, p) == s[h := s[p]][p := e];
    SiftUpStep(t, n, h);
    SwapIsPermutation(t, n, h, p);
  }

  /**
   * One iteration of the sift-down loop: exchanging the slot with its larger,
   * strictly higher child moves the slot down and keeps the same live entries.
   */
  lemma SiftDownMove(s: seq<Entry>, n: nat, h: nat, m: nat)
    requires m < n && IsChild(m, h) && HeapBelowHole(s, n, h)
    requires s[m].priority > s[h].priority
    requires 2 * h + 1 < n ==> s[m].priority >= s[2 * h + 1].priority
    requires 2 * h + 2 < n ==> s[m].priority >= s[2 * h + 2].priority
    ensures HeapBelowHole(s[h := s[m]][m := s[h]], n, m)
    ensures multiset(s[h := s[m]][m := s[h]][..n]) == multiset(s[..n])
  {
    SiftDownStep(s, n, h, m);
    SwapIsPermutation(s, n, h, m);
  }

  class MaxHeap {
    /** The heap array; only `pq[..size]` is live. */
    const pq: array<Entry>
    /** The number of live entries (a single global counter in the C code). */
    var size: nat

    ghost predicate Valid()
      reads this, pq
    {
      pq.Length == MAX_REGIONS && IsHeap(pq[..], size)
    }

    /** The live entries, in array order. */
    ghost function Live(): seq<Entry>
      reads this, pq
      requires size <= pq.Length
    {
      pq[..size]
    }

    /** A fresh, empty queue with capacity MAX_REGIONS. */
    constructor ()
      ensures Valid() && fresh(pq) && size == 0 && Live() == []
    {
      pq := new Entry[MAX_REGIONS](_ => Entry(0, 0));
      size := 0;
    }

    /**
     * Adds (id, priority), sifting up: each parent whose priority is strictly
     * lower than `priority` moves down one level, and the entry is written
     * into the slot where that stops. Fails, changing nothing, when the queue
     * already holds MAX_REGIONS entries.
     */
    method Insert(id: int, priority: int) returns (ok: bool)
      requires Valid()
      modifies this, pq
      ensures Valid()
      ensures ok <==> old(size) < MAX_REGIONS
      ensures ok ==> size == old(size) + 1
      ensures ok ==> multiset(Live()) == old(multiset(Live())) + multiset{Entry(id, priority)}
      ensures !ok ==> unchanged(this) && unchanged(pq)
    {
      if size == pq.Length {
        return false;
      }
      var e := Entry(id, priority);
      AppendStartsSiftUp(pq[..], size, e);
      size := size + 1;
      SiftUp(size - 1, e);
      ok := true;
    }

    /**
     * Places `e` by moving the hole at `i` upwards: each parent whose
     * priority is strictly lower than e's moves down into the hole, and
     * `e` is written where that stops. The live entries, with `e` in the
     * hole, are only permuted.
     */
    method SiftUp(i0: nat, e: Entry)
      requires pq.Length == MAX_REGIONS && i0 < size <= MAX_REGIONS
      requires HeapAboveHole(pq[..][i0 := e], size, i0)
      modifies pq
      ensures Valid()
      ensures multiset(Live()) == old(multiset(pq[..][i0 := e][..size]))
    {
      var i: nat := i0;
      while i > 0 && pq[(i - 1) / 2].priority < e.priority
        invariant pq.Length == MAX_REGIONS && i < size <= MAX_REGIONS
        invariant multiset(pq[..][i := e][..size]) == old(multiset(pq[..][i0 := e][..size]))
        invariant HeapAboveHole(pq[..][i := e], size, i)
      {
        var p := (i - 1) / 2;
        SiftUpMove(pq[..], size, i, e);
        pq[i] := pq[p];
        i := p;
      }
      SiftUpDone(pq[..][i := e], size, i);
      pq[i] := e;
    }

    /**
     * Removes the root and returns its id, or returns -1 and changes
     * nothing when the queue is empty. The last live entry moves to the
     * root and sifts down.
     */
    method ExtractMax() returns (id: int)
      requires Valid()
      modifies this, pq
      ensures Valid()
      ensures old(size) == 0 ==> id == -1 && unchanged(this) && unchanged(pq)
      ensures old(size) > 0 ==> size == old(size) - 1 && id == old(pq[0]).id
      ensures old(size) > 0 ==> forall k :: 0 <= k < old(size) ==> old(pq[k]).priority <= old(pq[0]).priority
      ensures old(size) > 0 ==> multiset(Live()) == old(multiset(Live())) - multiset{old(pq[0])}
    {
      if size == 0 {
        return -1;
      }
      forall k | 0 <= k < size
        ensures pq[k].priority <= pq[0].priority
      {
        RootIsMax(pq[..], size, k);
      }
      LastToRootStartsSiftDown(pq[..], size);
      id := pq[0].id;
      size := size - 1;
      pq[0] := pq[size];
      SiftDown();
    }

    /**
     * Restores heap order when only the root may be out of place: the
     * entry at the hole swaps with its larger child while that child has a
     * strictly higher priority. The live entries are only permuted.
     */
    method SiftDown()
      requires pq.Length == MAX_REGIONS && HeapBelowHole(pq[..], size, 0)
      modifies pq
      ensures Valid()
      ensures multiset(Live()) == old(multiset(Live()))
    {
      var i: nat := 0;
      while 2 * i + 1 < size
        invariant pq.Length == MAX_REGIONS
        invariant i == 0 || i < size
        invariant multiset(pq[..size]) == old(multiset(pq[..size]))
        invariant HeapBelowHole(pq[..], size, i)
        decreases size - i
      {
        var left, right, max := 2 * i + 1, 2 * i + 2, i;
        if pq[left].priority > pq[max].priority {
          max := left;
        }
        if right < size && pq[right].priority > pq[max].priority {
          max := right;
        }
        if max == i {
          break;
        }
        SiftDownMove(pq[..], size, i, max);
        pq[i], pq[max] := pq[max], pq[i];
        i := max;
      }
      SiftDownDone(pq[..], size, i);
    }
  }
}
