// One poll cycle of the capture worker as the object code runs it: the device
// is read, the batch is offered frame by frame and every counter is advanced
// (software/src/data/capture_service.cpp).  Interleavings with the consumer
// are the subject of module Capture.
module CaptureWorker {
  import opened BusTypes
  import Capture
  import opened Pipelines
  import opened SimDevice
  import opened SpscRing

  /** How many of `n` offered frames fit beside `held` ones. */
  function Fits(held: nat, n: nat, capacity: nat): (k: nat)
    requires held <= capacity
    ensures k <= n && held + k <= capacity && (k == n || held + k == capacity)
  {
    if held + n <= capacity then n else capacity - held
  }

  /** What offering the first `i` frames of a batch has done to the queue and
      to the pushed and dropped counters; `exact` if the counters had room. */
  ghost predicate Offered(held: seq<BusFrame>, batch: seq<BusFrame>, i: nat, capacity: nat,
                          queue: seq<BusFrame>, pushed: int, dropped: int, exact: bool) {
    && |held| <= capacity && i <= |batch|
    && var taken := Fits(|held|, i, capacity);
       && pushed == taken && dropped == i - taken && |queue| == |held| + taken
       && (exact ==> queue == held + batch[..taken])
  }

  lemma OfferedOneMore(held: seq<BusFrame>, batch: seq<BusFrame>, i: nat, capacity: nat, queue: seq<BusFrame>,
                       pushed: int, dropped: int, exact: bool, after: seq<BusFrame>)
    requires Offered(held, batch, i, capacity, queue, pushed, dropped, exact) && i < |batch|
    requires var k := Fits(|queue|, 1, capacity);
             |after| == |queue| + k && (exact ==> after == queue + [batch[i]][..k])
    ensures var k := Fits(|queue|, 1, capacity);
            Offered(held, batch, i + 1, capacity, after, pushed + k, dropped + 1 - k, exact)
  {
    if Fits(|queue|, 1, capacity) == 1 {
      assert Fits(|held|, i, capacity) == i;
      assert batch[..i] + [batch[i]][..1] == batch[..i + 1];
    }
  }

  /** A tail counter at `tail` can take `n` more frames before it wraps, or the
      wrap does not matter. */
  ghost predicate Room(capacity: nat, head: nat, tail: nat, n: nat)
    requires capacity > 0
  {
    M % capacity == 0 || (head <= tail && tail + n < M)
  }

  lemma RoomForOneLess(capacity: nat, head: nat, tail: nat, after: nat, n: nat)
    requires 0 < capacity && n > 0 && Room(capacity, head, tail, n)
    requires after == tail || after == Advance(M, tail, 1)
    ensures Room(capacity, head, after, n - 1)
  {
  }

  class CaptureService {
    const dev: SimUsbDevice
    const pipe: Pipeline
    var offered: nat
    var pushed: nat
    var pollCycles: nat

    constructor (dev: SimUsbDevice, pipe: Pipeline)
      ensures this.dev == dev && this.pipe == pipe && offered == 0 && pushed == 0 && pollCycles == 0
    {
      this.dev, this.pipe := dev, pipe;
      offered, pushed, pollCycles := 0, 0, 0;
    }

    method Offer(frame: BusFrame)
      requires pipe.Valid()
      modifies this`offered, this`pushed, pipe, pipe.buf
      ensures pipe.Valid() && pipe.head == old(pipe.head)
      ensures offered == old(offered) + 1
      ensures var k := Fits(old(|pipe.Queue()|), 1, pipe.capacity);
              && pushed == old(pushed) + k && pipe.dropped == old(pipe.dropped) + 1 - k
              && |pipe.Queue()| == old(|pipe.Queue()|) + k
              && (old(pipe.SlotsDistinct()) ==> pipe.Queue() == old(pipe.Queue()) + [frame][..k])
      ensures pipe.tail == old(pipe.tail) || pipe.tail == Advance(M, old(pipe.tail), 1)
    {
      var ok := pipe.Push(frame);
      if ok {
        pushed := pushed + 1;
      }
      offered := offered + 1;
      assert [frame][..1] == [frame] && [frame][..0] == [];
    }

    /** The counters can take `n` more frames without two live counters
        sharing a slot. */
    ghost predicate RoomToCount(n: nat)
      requires pipe.capacity > 0
      reads pipe
    {
      Room(pipe.capacity, pipe.head, pipe.tail, n)
    }

    /** One round of lines 38-43, given what the rounds before have done. */
    method OfferNext(batch: seq<BusFrame>, i: nat, ghost held: seq<BusFrame>, ghost pushed0: nat, ghost dropped0: nat,
                     ghost exact: bool)
      requires pipe.Valid() && i < |batch| && (exact ==> RoomToCount(|batch| - i))
      requires Offered(held, batch, i, pipe.capacity, pipe.Queue(), pushed - pushed0, pipe.dropped - dropped0, exact)
      modifies this`offered, this`pushed, pipe, pipe.buf
      ensures pipe.Valid() && pipe.head == old(pipe.head) && offered == old(offered) + 1
      ensures exact ==> RoomToCount(|batch| - i - 1)
      ensures Offered(held, batch, i + 1, pipe.capacity, pipe.Queue(), pushed - pushed0, pipe.dropped - dropped0, exact)
    {
      ghost var queue, p, d, tail := pipe.Queue(), pushed - pushed0, pipe.dropped - dropped0, pipe.tail;
      Offer(batch[i]);
      if exact { RoomForOneLess(pipe.capacity, pipe.head, tail, pipe.tail, |batch| - i); }
      OfferedOneMore(held, batch, i, pipe.capacity, queue, p, d, exact, pipe.Queue());
    }

    /** Lines 38-43: undisturbed, the loop accepts the frames that fit and drops
        the rest. */
    method OfferAll(batch: seq<BusFrame>)
      requires pipe.Valid()
      modifies this`offered, this`pushed, pipe, pipe.buf
      ensures pipe.Valid() && pipe.head == old(pipe.head)
      ensures offered == old(offered) + |batch|
      ensures Offered(old(pipe.Queue()), batch, |batch|, pipe.capacity, pipe.Queue(),
                      pushed - old(pushed), pipe.dropped - old(pipe.dropped), old(RoomToCount(|batch|)))
    {
      ghost var held, pushed0, dropped0, exact := pipe.Queue(), pushed, pipe.dropped, RoomToCount(|batch|);
      assert held + batch[..0] == held;
      var i := 0;
      while i < |batch|
        invariant 0 <= i <= |batch|
        invariant pipe.Valid() && pipe.head == old(pipe.head)
        invariant offered == old(offered) + i
        invariant Offered(held, batch, i, pipe.capacity, pipe.Queue(), pushed - pushed0, pipe.dropped - dropped0, exact)
        invariant exact ==> RoomToCount(|batch| - i)
      {
        OfferNext(batch, i, held, pushed0, dropped0, exact);
        i := i + 1;
      }
    }

    /** One round of the polling loop: the frames due at the device, at most a
        batch of them, are read and offered. */
    method PollCycle(batch: array<BusFrame>, now: nat, stamp: nat) returns (n: nat)
      requires pipe.Valid() && batch.Length == Capture.BATCH_FRAMES && batch != pipe.buf
      requires dev.Valid() && CanStream(dev.cfg) && dev.openedAt <= now < TWO_64
      modifies this, pipe, pipe.buf, dev`generated, dev`prng, dev`idOffset, batch
      ensures pipe.Valid() && dev.Valid() && pipe.head == old(pipe.head)
      ensures n == if dev.isOpen
                   then Count(old(dev.generated), Due(now - dev.openedAt, dev.cfg.rate), Capture.BATCH_FRAMES) else 0
      ensures dev.generated == old(dev.generated) + n && offered == old(offered) + n
      ensures pollCycles == old(pollCycles) + 1
      ensures Offered(old(pipe.Queue()), Batch(dev.cfg, dev.seedAtOpen, old(dev.generated), n, stamp), n, pipe.capacity,
                      pipe.Queue(), pushed - old(pushed), pipe.dropped - old(pipe.dropped), old(RoomToCount(n)))
    {
      n := dev.ReadFrames(batch, Capture.BATCH_FRAMES, now, stamp);
      OfferAll(batch[..n]);
      pollCycles := pollCycles + 1;
    }
  }
}
