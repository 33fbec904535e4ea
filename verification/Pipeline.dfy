// The ring buffer object of software/src/data/pipeline.cpp, with `std::size_t`
// counters that wrap modulo 2^64.  Its methods are proved against the atomic
// steps of SpscRing (a call that is not interfered with is exactly its steps,
// one after the other) and against the queue of frames it holds.
module Pipelines {
  import opened Arith
  import opened BusTypes
  import opened RingWrap
  import opened SpscRing

  const M: nat := TWO_64

  /** What `BusFrame* out` points to. */
  class FrameBox {
    var frame: BusFrame
    constructor () { frame := Blank(); }
  }

  class Pipeline {
    const capacity: nat
    const buf: array<BusFrame>
    var head: nat
    var tail: nat
    var dropped: nat
    ghost var accepted: seq<BusFrame>
    ghost var popped: seq<BusFrame>
    ghost var seenHead: nat
    ghost var seenTail: nat

    ghost predicate Valid()
      reads this
    {
      && 0 < capacity < M && buf.Length == capacity
      && head < M && tail < M && seenHead < M && seenTail < M
      && Distance(M, tail, head) <= capacity
    }

    /** The object as a state of the step system, between calls. */
    ghost function Snapshot(): Ring
      requires Valid()
      reads this, buf
    {
      RingState(capacity, buf[..], head, tail, dropped, PIdle, CIdle, seenHead, seenTail, accepted, popped)
    }

    /** The frames waiting in the ring, oldest first. */
    ghost function Queue(): (q: seq<BusFrame>)
      requires Valid()
      reads this, buf
      ensures |q| <= capacity
    {
      Contents(M, Snapshot())
    }

    /** No slot is shared by two live counters: the capacity divides 2^64, or
        tail has not wrapped past head's lap. */
    ghost predicate SlotsDistinct()
      reads this
    {
      capacity > 0 && (M % capacity == 0 || head <= tail)
    }

    constructor (cap: nat)
      requires cap < M
      ensures Valid() && fresh(buf) && Queue() == [] && dropped == 0
      ensures Snapshot() == Init(cap) && capacity == if cap == 0 then 1 else cap
    {
      capacity := if cap > 0 then cap else 1;
      buf := new BusFrame[if cap > 0 then cap else 1](_ => Blank());
      head, tail, dropped := 0, 0, 0;
      accepted, popped, seenHead, seenTail := [], [], 0, 0;
      new;
      assert buf[..] == Init(cap).buf;
    }

    method Push(frame: BusFrame) returns (ok: bool)
      requires Valid()
      modifies this, buf
      ensures Valid() && head == old(head)
      ensures Snapshot() == Run(M, old(Snapshot()), PushCall(M, old(Snapshot()), frame))
      ensures ok <==> |old(Queue())| < capacity
      ensures |Queue()| == old(|Queue()|) + (if ok then 1 else 0)
      ensures tail == if ok then Advance(M, old(tail), 1) else old(tail)
      ensures old(SlotsDistinct()) ==> Queue() == old(Queue()) + (if ok then [frame] else [])
      ensures dropped == old(dropped) + (if ok then 0 else 1)
    {
      ghost var s := Snapshot();
      var h, t := head, tail;
      seenHead := h;
      if Distance(M, t, h) >= capacity {
        dropped := dropped + 1;
        ok := false;
      } else {
        buf[t % capacity] := frame;
        tail := Advance(M, t, 1);
        accepted := accepted + [frame];
        DistanceAfterPush(M, t, h);
        ok := true;
      }
      assert Snapshot() == AfterPush(M, s, frame);
      PushCallEffect(M, s, frame);
      if M % s.cap == 0 || s.head <= s.tail { ContentsAfterPush(M, s, frame); }
    }

    method Pop(out: FrameBox?) returns (ok: bool)
      requires Valid()
      modifies this`head, this`popped, this`seenTail, out
      ensures Valid() && tail == old(tail)
      ensures out == null ==> !ok && Snapshot() == old(Snapshot())
      ensures out != null ==> Snapshot() == Run(M, old(Snapshot()), PopCall(M, old(Snapshot())))
      ensures out != null ==> (ok <==> old(Queue()) != [])
      ensures ok ==> [out.frame] + Queue() == old(Queue())
      ensures !ok ==> Queue() == old(Queue()) && (out != null ==> out.frame == old(out.frame))
    {
      if out == null {
        return false;
      }
      ghost var s := Snapshot();
      PopCallEffect(M, s);
      ContentsAfterAnyPop(M, s);
      var h, t := head, tail;
      seenTail := t;
      if h == t {
        ok := false;
      } else {
        out.frame := buf[h % capacity];
        popped := popped + [out.frame];
        head := Advance(M, h, 1);
        ok := true;
      }
      assert Snapshot() == AfterPop(M, s);
    }

    method Size() returns (n: nat)
      requires Valid()
      ensures n == |Queue()|
    {
      var h, t := head, tail;
      n := Distance(M, t, h);
    }

    method Empty() returns (e: bool)
      requires Valid()
      ensures e <==> Queue() == []
    {
      var n := Size();
      e := n == 0;
    }

    method Reset()
      requires Valid()
      modifies this
      ensures Valid() && Queue() == [] && dropped == 0
      ensures buf[..] == old(buf[..])
    {
      head, tail, dropped := 0, 0, 0;
      accepted, popped, seenHead, seenTail := [], [], 0, 0;
    }
  }

  lemma DistanceAfterPush(m: nat, t: nat, h: nat)
    requires h < m && t < m && Distance(m, t, h) + 1 < m
    ensures Distance(m, Advance(m, t, 1), h) == Distance(m, t, h) + 1
  {
    var d := Distance(m, t, h);
    var q := (t - h) / m;
    assert t - h == m * q + d;
    if t + 1 < m {
      DivModUnique(m, t + 1, 0, t + 1);
      DivModUnique(m, t + 1 - h, q, d + 1);
    } else {
      DivModUnique(m, t + 1, 1, 0);
      assert 0 - h == m * (q - 1) + (d + 1);
      DivModUnique(m, 0 - h, q - 1, d + 1);
    }
  }

  lemma DistanceAfterPop(m: nat, t: nat, h: nat)
    requires h < m && t < m && h != t
    ensures Distance(m, t, h) > 0
    ensures Distance(m, t, Advance(m, h, 1)) == Distance(m, t, h) - 1
    ensures forall j: nat :: Advance(m, Advance(m, h, 1), j) == Advance(m, h, j + 1)
  {
    var d := Distance(m, t, h);
    var q := (t - h) / m;
    assert t - h == m * q + d;
    if d == 0 { MulOutside(m, q); }
    if h + 1 < m {
      DivModUnique(m, h + 1, 0, h + 1);
      DivModUnique(m, t - (h + 1), q, d - 1);
    } else {
      DivModUnique(m, h + 1, 1, 0);
      assert t - 0 == m * (q + 1) + (d - 1);
      DivModUnique(m, t, q + 1, d - 1);
    }
    forall j: nat ensures Advance(m, Advance(m, h, 1), j) == Advance(m, h, j + 1) {
      AdvanceWraps(m, h + 1, j);
    }
  }

  /** Two live positions of the ring never share a slot. */
  lemma SlotsStayApart(m: nat, cap: nat, h: nat, t: nat, j: nat)
    requires 0 < cap < m && h < m && t < m && (m % cap == 0 || h <= t)
    requires j < Distance(m, t, h) < cap
    ensures Advance(m, h, j) % cap != t % cap
  {
    var d := Distance(m, t, h);
    CatchUp(m, h, t);
    ModSeparates(h + j, h + d, cap);
    if m % cap == 0 {
      SlotWraps(m, cap, h + j);
      SlotWraps(m, cap, h + d);
    } else {
      DivModUnique(m, t - h, 0, t - h);
      DivModUnique(m, h + j, 0, h + j);
    }
  }

  lemma ContentsAfterPush(m: nat, s: Ring, frame: BusFrame)
    requires m > 0 && InRange(m, s) && s.cap < m && (m % s.cap == 0 || s.head <= s.tail)
    ensures Distance(m, s.tail, s.head) < s.cap ==>
              Contents(m, AfterPush(m, s, frame)) == Contents(m, s) + [frame]
    ensures Distance(m, s.tail, s.head) >= s.cap ==> Contents(m, AfterPush(m, s, frame)) == Contents(m, s)
  {
    var d := Distance(m, s.tail, s.head);
    if d < s.cap {
      var n := AfterPush(m, s, frame);
      DistanceAfterPush(m, s.tail, s.head);
      CatchUp(m, s.head, s.tail);
      forall j: nat | j < d
        ensures Contents(m, n)[j] == Contents(m, s)[j]
      {
        SlotsStayApart(m, s.cap, s.head, s.tail, j);
      }
    }
  }

  lemma ContentsAfterAnyPop(m: nat, s: Ring)
    requires m > 0 && InRange(m, s)
    ensures s.head == s.tail <==> Contents(m, s) == []
    ensures s.head == s.tail ==> Contents(m, AfterPop(m, s)) == Contents(m, s)
    ensures s.head != s.tail ==> Contents(m, s) == [s.buf[s.head % s.cap]] + Contents(m, AfterPop(m, s))
    ensures Distance(m, AfterPop(m, s).tail, AfterPop(m, s).head) <= Distance(m, s.tail, s.head)
  {
    if s.head != s.tail {
      ContentsAfterPop(m, s);
      DistanceAfterPop(m, s.tail, s.head);
    }
  }

  lemma ContentsAfterPop(m: nat, s: Ring)
    requires m > 0 && InRange(m, s) && s.head != s.tail
    ensures Contents(m, s) == [s.buf[s.head % s.cap]] + Contents(m, AfterPop(m, s))
  {
    DistanceAfterPop(m, s.tail, s.head);
    DivModUnique(m, s.head, 0, s.head);
  }
}
