/**
 * The frame hand-off channel between the capture worker and the consumers:
 * a bounded FIFO queue (a `multiprocessing` manager queue created with
 * `maxsize=1`), written by the capture loop without blocking and drained by
 * `get_frame`.
 */
module FrameChannel {
  import opened Wrappers

  /** One decoded image, as its raw bytes. */
  type Frame = seq<bv8>

  /** The capacity the pipeline creates the channel with. */
  const PIPELINE_CAPACITY := 1

  /**
   * Python's `Queue.full()`: a queue with `maxsize <= 0` is unbounded and
   * never full; otherwise it is full once it holds `maxsize` items.
   */
  predicate Full(items: seq<Frame>, maxsize: int) {
    0 < maxsize <= |items|
  }

  /** The channel's invariant: a bounded queue never holds more than its capacity. */
  predicate Bounded(items: seq<Frame>, maxsize: int) {
    maxsize <= 0 || |items| <= maxsize
  }

  /**
   * The producer's non-blocking put: the frame is appended only when the
   * queue is not full, otherwise it is discarded and the queue is unchanged.
   */
  function Offer(items: seq<Frame>, maxsize: int, f: Frame): (r: seq<Frame>)
    ensures Bounded(items, maxsize) ==> Bounded(r, maxsize)
    ensures Full(items, maxsize) ==> r == items
    ensures !Full(items, maxsize) ==> |r| == |items| + 1 && r[..|items|] == items && r[|items|] == f
  {
    if Full(items, maxsize) then items else items + [f]
  }

  class FrameBus {
    var items: seq<Frame>
    const capacity: int

    ghost predicate Valid()
      reads this
    {
      Bounded(items, capacity)
    }

    /** An empty queue of the given `maxsize` (the pipeline uses 1). */
    constructor (maxsize: int)
      ensures Valid() && items == [] && capacity == maxsize
    {
      items := [];
      capacity := maxsize;
    }

    predicate IsFull()
      reads this
    {
      Full(items, capacity)
    }

    /**
     * `if not frames.full(): frames.put(frame)`: the frame is enqueued exactly
     * when the queue is not full; on a full queue the existing content stays
     * and the new frame is dropped.
     */
    method TryPut(f: Frame) returns (accepted: bool)
      requires Valid()
      modifies this
      ensures Valid()
      ensures accepted == !Full(old(items), capacity)
      ensures items == Offer(old(items), capacity, f)
      ensures accepted ==> items == old(items) + [f]
      ensures !accepted ==> items == old(items)
    {
      accepted := !IsFull();
      if accepted {
        items := items + [f];
      }
    }

    /**
     * `get_frame`: on a non-empty queue, removes and returns the oldest frame;
     * on an empty queue returns `None` and changes nothing.
     */
    method GetFrame() returns (r: Option<Frame>)
      requires Valid()
      modifies this
      ensures Valid()
      ensures old(items) == [] ==> r == None && items == []
      ensures old(items) != [] ==> r == Some(old(items)[0]) && items == old(items)[1..]
    {
      if items != [] {
        r := Some(items[0]);
        items := items[1..];
      } else {
        r := None;
      }
    }
  }

  /** A valid channel created with the pipeline's capacity is empty or holds one frame. */
  lemma PipelineChannelIsSingleSlot(b: FrameBus)
    requires b.Valid() && b.capacity == PIPELINE_CAPACITY
    ensures b.items == [] || b.items == [b.items[0]]
  {
  }
}
