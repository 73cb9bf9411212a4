/**
 * The FIFO queue of food batches: a singly linked list with a pointer to
 * its first node (`front`) and to its last node (`rear`). Batches are
 * appended at the rear and taken from the front.
 */
module BatchQueue {

  /** A shipment of one food type for one region. */
  datatype FoodBatch = FoodBatch(regionID: int, foodType: int, quantity: int, expiryDays: int)

  /** What a dequeue from an empty queue returns. */
  function EmptyBatch(): (b: FoodBatch) {
    FoodBatch(-1, -1, 0, 0)
  }

  class Node {
    var batch: FoodBatch
    var next: Node?

    constructor (batch: FoodBatch)
      ensures this.batch == batch && next == null
    {
      this.batch := batch;
      next := null;
    }
  }

  class LinkedListQueue {
    var front: Node?
    var rear: Node?

    /** The nodes of the list from front to rear. */
    ghost var nodes: seq<Node>
    /** The queued batches from front to rear. */
    ghost var Contents: seq<FoodBatch>
    /** Every node the queue owns. */
    ghost var Repr: set<object>

    ghost predicate Valid()
      reads this, Repr
    {
      && |nodes| == |Contents|
      && (forall i :: 0 <= i < |nodes| ==> nodes[i] in Repr && nodes[i].batch == Contents[i])
      && (forall i :: 0 <= i < |nodes| - 1 ==> nodes[i].next == nodes[i + 1])
      && (forall i, j :: 0 <= i < j < |nodes| ==> nodes[i] != nodes[j])
      && (if nodes == [] then front == null && rear == null
          else front == nodes[0] && rear == nodes[|nodes| - 1] && rear.next == null)
    }

    /** An empty queue: both ends are null. */
    constructor ()
      ensures Valid() && Contents == [] && Repr == {}
    {
      front, rear := null, null;
      nodes, Contents, Repr := [], [], {};
    }

    /** The front is null exactly when the rear is, and exactly when nothing is queued. */
    lemma EndsAgree()
      requires Valid()
      ensures (front == null) <==> (rear == null)
      ensures (front == null) <==> (Contents == [])
    {
    }

    /** Appends `batch` in a new node at the rear. */
    method Enqueue(batch: FoodBatch)
      requires Valid()
      modifies this, Repr
      ensures Valid()
      ensures Contents == old(Contents) + [batch]
      ensures fresh(Repr - old(Repr))
    {
      var newNode := new Node(batch);
      if rear == null {
        front, rear := newNode, newNode;
      } else {
        rear.next := newNode;
        rear := newNode;
      }
      nodes, Contents, Repr := nodes + [newNode], Contents + [batch], Repr + {newNode};
    }

    /**
     * Removes and returns the batch at the front, or returns EmptyBatch()
     * and changes nothing when the queue is empty. The rear is reset when
     * the last node leaves.
     */
    method Dequeue() returns (batch: FoodBatch)
      requires Valid()
      modifies this
      ensures Valid()
      ensures old(Contents) == [] ==> batch == EmptyBatch() && Contents == []
      ensures old(Contents) != [] ==> batch == old(Contents)[0] && Contents == old(Contents)[1..]
      ensures Repr == old(Repr)
    {
      if front == null {
        return EmptyBatch();
      }
      var temp := front;
      batch := temp.batch;
      front := front.next;
      if front == null {
        rear := null;
      }
      nodes, Contents := nodes[1..], Contents[1..];
    }
  }

  /** Dequeues until the queue is empty, collecting the batches in the order they come out. */
  method DrainAll(q: LinkedListQueue) returns (out: seq<FoodBatch>)
    requires q.Valid()
    modifies q
    ensures q.Valid() && q.Contents == []
    ensures out == old(q.Contents)
  {
    out := [];
    while q.front != null
      invariant q.Valid() && q.Repr == old(q.Repr)
      invariant out + q.Contents == old(q.Contents)
      decreases |q.Contents|
    {
      q.EndsAgree();
      var b := q.Dequeue();
      out := out + [b];
    }
    q.EndsAgree();
  }

  /** Batches enqueued into an empty queue come out in the order they went in. */
  method FirstInFirstOut(batches: seq<FoodBatch>) returns (out: seq<FoodBatch>)
    ensures out == batches
  {
    var q := new LinkedListQueue();
    var i := 0;
    while i < |batches|
      invariant 0 <= i <= |batches|
      invariant q.Valid() && q.Contents == batches[..i]
      invariant fresh(q.Repr)
    {
      q.Enqueue(batches[i]);
      i := i + 1;
    }
    assert batches[..i] == batches;
    out := DrainAll(q);
  }

  /** Two batches come out in order, and a third dequeue yields the empty sentinel. */
  method TwoThenEmpty(x: FoodBatch, y: FoodBatch) returns (a: FoodBatch, b: FoodBatch, c: FoodBatch)
    ensures a == x && b == y && c == EmptyBatch()
  {
    var q := new LinkedListQueue();
    q.Enqueue(x);
    q.Enqueue(y);
    a := q.Dequeue();
    b := q.Dequeue();
    c := q.Dequeue();
  }
}
