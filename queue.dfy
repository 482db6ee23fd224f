/**
  The BFS queue of grafo.c: `items[MAX_VERTICES]` with `front` and `rear`
  indices, both -1 when the queue is empty. Slots are not reused while the
  queue holds something: `rear` only grows until the queue drains, and a
  value offered when `rear` is already the last slot is dropped.
*/
module Queues {
  import Graphs

  class Queue {
    var items: array<int>
    var front: int
    var rear: int

    ghost predicate Valid()
      reads this
    {
      items.Length == Graphs.MaxVertices &&
      (front == -1 <==> rear == -1) &&
      (front != -1 ==> 0 <= front <= rear < Graphs.MaxVertices)
    }

    /** The values waiting in the queue, oldest first. */
    ghost function Contents(): seq<int>
      reads this, items
      requires Valid()
    {
      if front == -1 then [] else items[front..rear + 1]
    }

    /** `createQueue` */
    constructor ()
      ensures Valid() && fresh(items)
      ensures front == -1 && rear == -1 && Contents() == []
    {
      items := new int[Graphs.MaxVertices];
      front := -1;
      rear := -1;
    }

    /** `isEmpty` */
    function IsEmpty(): (empty: bool)
      reads this, items
      requires Valid()
      ensures empty <==> Contents() == []
    {
      front == -1
    }

    /** `enqueue`: appends `value`, or does nothing when the last slot is taken. */
    method Enqueue(value: int)
      requires Valid()
      modifies this, items
      ensures Valid() && items == old(items)
      ensures old(rear) == Graphs.MaxVertices - 1 ==>
                front == old(front) && rear == old(rear) && Contents() == old(Contents())
      ensures old(rear) < Graphs.MaxVertices - 1 ==>
                rear == old(rear) + 1 && Contents() == old(Contents()) + [value]
    {
      if rear == Graphs.MaxVertices - 1 {
        return;
      }
      if front == -1 {
        front := 0;
      }
      rear := rear + 1;
      items[rear] := value;
    }

    /**
      `dequeue`: the oldest value, or the sentinel -1 on an empty queue,
      which is left as it was. Taking the last value resets both indices.
    */
    method Dequeue() returns (item: int)
      requires Valid()
      modifies this
      ensures Valid() && items == old(items)
      ensures old(Contents()) == [] ==> item == -1 && front == old(front) && rear == old(rear)
      ensures old(Contents()) != [] ==>
                item == old(Contents())[0] && Contents() == old(Contents())[1..]
      ensures old(Contents()) != [] ==>
                if |old(Contents())| == 1 then front == -1 && rear == -1 else rear == old(rear)
    {
      if IsEmpty() {
        return -1;
      }
      item := items[front];
      front := front + 1;
      if front > rear {
        front, rear := -1, -1;
      }
    }
  }

  /** Offers every value of `xs`, in order, to the queue `q`. */
  method EnqueueAll(q: Queue, xs: seq<int>)
    requires q.Valid() && q.Contents() == [] && q.rear == -1
    modifies q, q.items
    ensures q.Valid() && q.items == old(q.items)
    ensures q.Contents() == if |xs| <= Graphs.MaxVertices then xs else xs[..Graphs.MaxVertices]
  {
    var i := 0;
    while i < |xs|
      invariant 0 <= i <= |xs|
      invariant q.Valid() && q.items == old(q.items)
      invariant q.rear + 1 == if i <= Graphs.MaxVertices then i else Graphs.MaxVertices
      invariant q.Contents() == xs[..q.rear + 1]
    {
      if i < Graphs.MaxVertices {
        assert xs[..i] + [xs[i]] == xs[..i + 1];
      }
      q.Enqueue(xs[i]);
      i := i + 1;
    }
  }

  /** Dequeues until `q` is empty: the values come out oldest first. */
  method DequeueAll(q: Queue) returns (ys: seq<int>)
    requires q.Valid()
    modifies q
    ensures q.Valid() && q.Contents() == []
    ensures ys == old(q.Contents())
  {
    ghost var all := q.Contents();
    ys := [];
    while !q.IsEmpty()
      invariant q.Valid() && q.items == old(q.items)
      invariant |ys| <= |all| && ys == all[..|ys|] && q.Contents() == all[|ys|..]
      decreases |q.Contents()|
    {
      var x := q.Dequeue();
      assert all[..|ys|] + [x] == all[..|ys| + 1];
      ys := ys + [x];
    }
  }

  /**
    Offer every value of `xs` to a fresh queue, then drain it: the values
    come out in the order they went in, and only the first MaxVertices of
    them were kept.
  */
  method EnqueueAllDequeueAll(xs: seq<int>) returns (ys: seq<int>)
    ensures ys == if |xs| <= Graphs.MaxVertices then xs else xs[..Graphs.MaxVertices]
  {
    var q := new Queue();
    EnqueueAll(q, xs);
    ys := DequeueAll(q);
  }
}
