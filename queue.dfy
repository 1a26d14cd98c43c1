/** The vertex queue BFS drains: `Queue(capacity)`, `enqueue`, `dequeue`,
    `peek` and `isEmpty`. Its implementation is not part of this model; it is
    modelled by the FIFO behaviour BFS relies on, over the sequence of queued
    vertices, front first. */
module Queues {

  class Queue {
    /** The fixed capacity the queue is created with. */
    const capacity: nat
    /** The queued vertices, front first. */
    var items: seq<int>

    ghost predicate Valid()
      reads this
    {
      |items| <= capacity
    }

    /** `Queue queue(capacity)`: an empty queue. */
    constructor(capacity: nat)
      ensures Valid() && this.capacity == capacity && items == []
    {
      this.capacity := capacity;
      items := [];
    }

    /** `isEmpty()`. */
    function IsEmpty(): (b: bool)
      reads this
      ensures b <==> items == []
    {
      |items| == 0
    }

    /** `peek()`: the front vertex of a non-empty queue, the one queued
        earliest among those still queued. */
    function Peek(): (x: int)
      requires items != []
      reads this
      ensures x == items[0]
    {
      items[0]
    }

    /** `enqueue(x)` on a queue with room: `x` joins at the back. */
    method Enqueue(x: int)
      requires Valid() && |items| < capacity
      modifies this
      ensures Valid() && items == old(items) + [x]
    {
      items := items + [x];
    }

    /** `dequeue()` on a non-empty queue: the front vertex leaves. */
    method Dequeue()
      requires Valid() && items != []
      modifies this
      ensures Valid() && items == old(items)[1..]
    {
      items := items[1..];
    }
  }
}
