// The single-producer/single-consumer ring of the capture path, at the level
// of its individual loads, tests, slot accesses and publications.
//
// One step function serves both forms of the ring: `m == 0` gives counters
// that grow without bound, `m > 0` gives counters that wrap modulo `m` as
// `std::size_t` does.  A load of the other thread's counter may be stale: it
// returns any value between the newest one this thread has already seen and
// the current one (read-read coherence of a single atomic variable).  A slot
// copy is one step that completes before the counter is published.
module SpscRing {
  import opened Arith
  import opened BusTypes

  datatype Producer =
    | PIdle
    | PHasHead(frame: BusFrame, h: nat)
    | PHasBoth(frame: BusFrame, h: nat, t: nat)
    | PMayWrite(frame: BusFrame, t: nat)
    | PWrote(frame: BusFrame, t: nat)
    | PDone(ok: bool)

  datatype Consumer =
    | CIdle
    | CHasHead(h: nat)
    | CHasBoth(h: nat, t: nat)
    | CMayCopy(h: nat)
    | CCopied(h: nat, frame: BusFrame)

  /** `seenHead`/`seenTail` are the newest values the producer/consumer loaded
      from the other side; `accepted`/`popped` are the histories of frames. */
  datatype RingState = RingState(
    cap: nat,
    buf: seq<BusFrame>,
    head: nat,
    tail: nat,
    dropped: nat,
    prod: Producer,
    cons: Consumer,
    seenHead: nat,
    seenTail: nat,
    accepted: seq<BusFrame>,
    popped: seq<BusFrame>)

  type Ring = s: RingState | s.cap > 0 && |s.buf| == s.cap
    witness RingState(1, [Blank()], 0, 0, 0, PIdle, CIdle, 0, 0, [], [])

  datatype Action =
    | PushLoadHead(frame: BusFrame, lag: nat)
    | PushLoadTail
    | PushTest
    | PushWrite
    | PushPublish
    | PushReturn
    | PopLoadHead
    | PopLoadTail(lag: nat)
    | PopTest
    | PopCopy
    | PopPublish

  /** The counter value `n` steps after `x`. */
  function Advance(m: nat, x: nat, n: nat): nat {
    if m == 0 then x + n else (x + n) % m
  }

  /** The unsigned difference `t - h`. */
  function Distance(m: nat, t: nat, h: nat): nat {
    if m > 0 then (t - h) % m else if t >= h then t - h else 0
  }

  /** The constructor: a zero capacity becomes one. */
  function Init(capacity: nat): (r: Ring)
    ensures r.cap == if capacity == 0 then 1 else capacity
    ensures r.head == r.tail == r.dropped == 0
  {
    var cap := if capacity > 0 then capacity else 1;
    RingState(cap, seq(cap, _ => Blank()), 0, 0, 0, PIdle, CIdle, 0, 0, [], [])
  }

  predicate Enabled(m: nat, s: Ring, a: Action) {
    match a
    case PushLoadHead(_, lag) => s.prod.PIdle? && lag <= Distance(m, s.head, s.seenHead)
    case PushLoadTail => s.prod.PHasHead?
    case PushTest => s.prod.PHasBoth?
    case PushWrite => s.prod.PMayWrite?
    case PushPublish => s.prod.PWrote?
    case PushReturn => s.prod.PDone?
    case PopLoadHead => s.cons.CIdle?
    case PopLoadTail(lag) => s.cons.CHasHead? && lag <= Distance(m, s.tail, s.seenTail)
    case PopTest => s.cons.CHasBoth?
    case PopCopy => s.cons.CMayCopy?
    case PopPublish => s.cons.CCopied?
  }

  /** One atomic step; an action that is not enabled leaves the state alone. */
  function Next(m: nat, s: Ring, a: Action): Ring {
    if !Enabled(m, s, a) then s else
    match a
    case PushLoadHead(frame, lag) =>
      var h := Advance(m, s.seenHead, lag);
      s.(prod := PHasHead(frame, h), seenHead := h)
    case PushLoadTail =>
      s.(prod := PHasBoth(s.prod.frame, s.prod.h, s.tail))
    case PushTest =>
      if Distance(m, s.prod.t, s.prod.h) >= s.cap then
        s.(dropped := s.dropped + 1, prod := PDone(false))
      else
        s.(prod := PMayWrite(s.prod.frame, s.prod.t))
    case PushWrite =>
      s.(buf := s.buf[s.prod.t % s.cap := s.prod.frame], prod := PWrote(s.prod.frame, s.prod.t))
    case PushPublish =>
      s.(tail := Advance(m, s.prod.t, 1), accepted := s.accepted + [s.prod.frame], prod := PDone(true))
    case PushReturn =>
      s.(prod := PIdle)
    case PopLoadHead =>
      s.(cons := CHasHead(s.head))
    case PopLoadTail(lag) =>
      var t := Advance(m, s.seenTail, lag);
      s.(cons := CHasBoth(s.cons.h, t), seenTail := t)
    case PopTest =>
      if s.cons.h == s.cons.t then s.(cons := CIdle) else s.(cons := CMayCopy(s.cons.h))
    case PopCopy =>
      s.(cons := CCopied(s.cons.h, s.buf[s.cons.h % s.cap]))
    case PopPublish =>
      s.(head := Advance(m, s.cons.h, 1), popped := s.popped + [s.cons.frame], cons := CIdle)
  }

  /** The state after a sequence of actions; every interleaving of the two
      threads is one such sequence. */
  function Run(m: nat, s: Ring, acts: seq<Action>): Ring
    decreases |acts|
  {
    if acts == [] then s else Next(m, Run(m, s, acts[..|acts| - 1]), acts[|acts| - 1])
  }

  /** The frames held by the ring, oldest first, read off the slots. */
  function Contents(m: nat, s: Ring): seq<BusFrame> {
    seq(Distance(m, s.tail, s.head), j requires 0 <= j => s.buf[Advance(m, s.head, j) % s.cap])
  }

  ghost predicate ProducerInv(s: Ring) {
    match s.prod
    case PIdle => true
    case PHasHead(_, h) => h == s.seenHead
    case PHasBoth(_, h, t) => h == s.seenHead && t == s.tail
    case PMayWrite(_, t) => t == s.tail && s.tail < s.seenHead + s.cap
    case PWrote(f, t) => t == s.tail && s.tail < s.seenHead + s.cap && s.buf[t % s.cap] == f
    case PDone(_) => true
  }

  ghost predicate ConsumerInv(s: Ring)
    requires s.tail == |s.accepted|
  {
    match s.cons
    case CIdle => true
    case CHasHead(h) => h == s.head
    case CHasBoth(h, t) => h == s.head && t == s.seenTail
    case CMayCopy(h) => h == s.head < s.seenTail
    case CCopied(h, f) => h == s.head < s.seenTail <= s.tail && f == s.accepted[h]
  }

  ghost predicate CountersInv(s: Ring) {
    && s.head == |s.popped| && s.tail == |s.accepted|
    && s.head <= s.tail <= s.head + s.cap
    && s.seenHead <= s.head && s.tail <= s.seenHead + s.cap
    && s.head <= s.seenTail <= s.tail
    && ProducerInv(s)
    && ConsumerInv(s)
  }

  /** Invariant of the ring with unbounded counters. */
  ghost predicate Inv(s: Ring) {
    && CountersInv(s)
    && s.popped == s.accepted[..s.head]
    && (forall j | s.head <= j < s.tail :: s.buf[j % s.cap] == s.accepted[j])
  }

  lemma InitInv(capacity: nat)
    ensures Inv(Init(capacity))
  {
  }

  predicate ByProducer(a: Action) {
    a.PushLoadHead? || a.PushLoadTail? || a.PushTest? || a.PushWrite? || a.PushPublish? || a.PushReturn?
  }

  lemma ProducerStepInv(s: Ring, a: Action)
    requires Inv(s) && ByProducer(a) && !a.PushWrite?
    ensures Inv(Next(0, s, a))
  {
  }

  lemma WriteInv(s: Ring)
    requires Inv(s)
    ensures Inv(Next(0, s, PushWrite))
  {
    var n := Next(0, s, PushWrite);
    if s.prod.PMayWrite? {
      forall j | n.head <= j < n.tail
        ensures n.buf[j % n.cap] == n.accepted[j]
      {
        ModSeparates(j, s.tail, s.cap);
      }
    }
  }

  lemma ConsumerStepInv(s: Ring, a: Action)
    requires Inv(s) && !ByProducer(a)
    ensures Inv(Next(0, s, a))
  {
  }

  /** Every step of either thread keeps the invariant. */
  lemma NextInv(s: Ring, a: Action)
    requires Inv(s)
    ensures Inv(Next(0, s, a))
  {
    if a.PushWrite? {
      WriteInv(s);
    } else if ByProducer(a) {
      ProducerStepInv(s, a);
    } else {
      ConsumerStepInv(s, a);
    }
  }

  lemma {:induction false} RunInv(s: Ring, acts: seq<Action>)
    requires Inv(s)
    ensures Inv(Run(0, s, acts))
    decreases |acts|
  {
    if acts != [] {
      RunInv(s, acts[..|acts| - 1]);
      NextInv(Run(0, s, acts[..|acts| - 1]), acts[|acts| - 1]);
    }
  }
}
