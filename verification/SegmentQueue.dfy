/** The ring of fill segments behind ICV_PUSH and ICV_POP. */
module Segments {
  // A filled run of pixels l..r in row y; the run prevl..prevr of row y + dir caused it.
  datatype Segment = Segment(y: int, l: int, r: int, prevl: int, prevr: int, dir: int)

  class SegmentQueue {
    const buffer: array<Segment>
    var head: nat
    var tail: nat
    // Set once a push has filled the last slot: head == tail then reads as an empty queue.
    ghost var lost: bool

    ghost predicate Valid()
      reads this
    {
      head < buffer.Length && tail < buffer.Length
    }

    // What a loop that runs while head != tail will still pop, in order.
    ghost function Pending(): seq<Segment>
      reads this, buffer
      requires Valid()
    {
      if head <= tail then buffer[head..tail] else buffer[head..] + buffer[..tail]
    }

    constructor (storage: array<Segment>)
      requires storage.Length > 0
      ensures buffer == storage
      ensures Valid() && Pending() == [] && !lost
    {
      buffer := storage;
      head, tail := 0, 0;
      lost := false;
    }

    // The slot after slot i.
    function Next(i: nat): nat {
      if i + 1 >= buffer.Length then 0 else i + 1
    }

    // The ring is as it was before but for the slot, which is the last one stored to.
    ghost predicate Stored(before: seq<Segment>, slot: nat, x: Segment)
      reads this, buffer
    {
      |before| == buffer.Length && slot < |before| && buffer[..] == before[slot := x] && tail == Next(slot)
    }

    /** ICV_PUSH: what the loop sees is a queue up to one slot less than the ring has. */
    method Push(x: Segment)
      requires Valid()
      modifies this`tail, this`lost, buffer
      ensures Valid()
      ensures Stored(old(buffer[..]), old(tail), x)
      ensures |old(Pending())| + 1 < buffer.Length
              ==> Pending() == old(Pending()) + [x] && lost == old(lost)
      ensures |old(Pending())| + 1 >= buffer.Length ==> Pending() == [] && lost
    {
      lost := lost || |Pending()| + 1 >= buffer.Length;
      buffer[tail] := x;
      tail := tail + 1;
      if tail >= buffer.Length {
        tail := 0;
      }
    }

    /** ICV_POP */
    method Pop() returns (x: Segment)
      requires Valid()
      modifies this`head
      ensures Valid()
      ensures x == buffer[old(head)] && head == Next(old(head))
      ensures old(Pending()) != [] ==> x == old(Pending())[0] && Pending() == old(Pending())[1..]
    {
      x := buffer[head];
      head := head + 1;
      if head >= buffer.Length {
        head := 0;
      }
    }

    method IsEmpty() returns (b: bool)
      requires Valid()
      ensures b <==> Pending() == []
    {
      b := head == tail;
    }
  }
}
