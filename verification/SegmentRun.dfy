/** Whole runs of the segment ring, with every slot in use. */
module SegmentRun {
  import opened Segments

  datatype QueueOp = PushOp(x: Segment) | PopOp

  // The ring holds the segments of q, from its head on: every slot may be in use.
  ghost predicate Holds(ring: SegmentQueue, q: seq<Segment>)
    reads ring, ring.buffer
  {
    && ring.Valid() && |q| <= ring.buffer.Length
    && ring.tail == Slot(ring.head, |q|, ring.buffer.Length)
    && forall k {:trigger q[k]} :: 0 <= k < |q| ==> ring.buffer[Slot(ring.head, k, ring.buffer.Length)] == q[k]
  }

  // The slot k places behind the head.
  function Slot(head: nat, k: nat, slots: nat): (i: nat)
    requires head < slots && k <= slots
    ensures i < slots
  {
    if head + k >= slots then head + k - slots else head + k
  }

  // The queue after an operation, and what the operation pops.
  function After(q: seq<Segment>, op: QueueOp): seq<Segment> {
    match op
    case PushOp(x) => q + [x]
    case PopOp => if q == [] then [] else q[1..]
  }

  // A run that never pops an empty queue and never holds more than the ring has slots.
  predicate Possible(q: seq<Segment>, slots: nat, ops: seq<QueueOp>)
    decreases |ops|
  {
    ops == [] || ((if ops[0].PopOp? then q != [] else |q| < slots) && Possible(After(q, ops[0]), slots, ops[1..]))
  }

  function Pushes(ops: seq<QueueOp>): seq<Segment> {
    if ops == [] then []
    else Pushed(ops[0]) + Pushes(ops[1..])
  }

  function Pushed(op: QueueOp): seq<Segment> {
    if op.PushOp? then [op.x] else []
  }

  lemma PushHolds(ring: seq<Segment>, head: nat, q: seq<Segment>, x: Segment)
    requires head < |ring| && |q| < |ring|
    requires forall k {:trigger q[k]} :: 0 <= k < |q| ==> ring[Slot(head, k, |ring|)] == q[k]
    ensures var ring' := ring[Slot(head, |q|, |ring|) := x];
            forall k {:trigger (q + [x])[k]} :: 0 <= k <= |q| ==> ring'[Slot(head, k, |ring|)] == (q + [x])[k]
  {
  }

  method PerformPush(ring: SegmentQueue, ghost q: seq<Segment>, x: Segment)
    requires Holds(ring, q) && |q| < ring.buffer.Length
    modifies ring, ring.buffer
    ensures Holds(ring, q + [x])
  {
    ghost var slots := ring.buffer[..];
    PushHolds(slots, ring.head, q, x);
    ring.Push(x);
  }

  method PerformPop(ring: SegmentQueue, ghost q: seq<Segment>) returns (x: Segment)
    requires Holds(ring, q) && q != []
    modifies ring, ring.buffer
    ensures Holds(ring, q[1..]) && x == q[0]
  {
    assert ring.buffer[Slot(ring.head, 0, ring.buffer.Length)] == q[0];
    x := ring.Pop();
    assert forall k {:trigger q[1..][k]} :: 0 <= k < |q| - 1 ==> q[1..][k] == q[k + 1];
  }

  method Perform(ring: SegmentQueue, ghost q: seq<Segment>, op: QueueOp) returns (popped: seq<Segment>)
    requires Holds(ring, q) && (if op.PopOp? then q != [] else |q| < ring.buffer.Length)
    modifies ring, ring.buffer
    ensures Holds(ring, After(q, op))
    ensures q + Pushed(op) == popped + After(q, op)
  {
    hide Holds;
    match op
    case PushOp(x) =>
      PerformPush(ring, q, x);
      popped := [];
    case PopOp =>
      var x := PerformPop(ring, q);
      popped := [x];
  }

  lemma Joined(q: seq<Segment>, pushed: seq<Segment>, pushes: seq<Segment>, first: seq<Segment>,
               after: seq<Segment>, others: seq<Segment>, rest: seq<Segment>)
    requires q + pushed == first + after && after + pushes == others + rest
    ensures q + (pushed + pushes) == (first + others) + rest
  {
    assert q + (pushed + pushes) == (q + pushed) + pushes;
    assert (first + after) + pushes == first + (after + pushes);
    assert first + (others + rest) == (first + others) + rest;
  }

  /** Any interleaving of pushes and pops, across any number of turns of the ring and with
      every slot in use: what is popped are the segments held and pushed, in order, and what
      is left is the rest of them. */
  method RunQueue(ring: SegmentQueue, ghost q: seq<Segment>, ops: seq<QueueOp>)
    returns (popped: seq<Segment>, ghost rest: seq<Segment>)
    requires Holds(ring, q) && Possible(q, ring.buffer.Length, ops)
    modifies ring, ring.buffer
    ensures Holds(ring, rest)
    ensures q + Pushes(ops) == popped + rest
    decreases |ops|
  {
    hide Holds, After, Pushed;
    if ops == [] {
      return [], q;
    }
    var first := Perform(ring, q, ops[0]);
    var others;
    others, rest := RunQueue(ring, After(q, ops[0]), ops[1..]);
    popped := first + others;
    Joined(q, Pushed(ops[0]), Pushes(ops[1..]), first, After(q, ops[0]), others, rest);
  }
}
