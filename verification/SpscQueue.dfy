// What the ring promises, with unbounded counters: in-order delivery, slot
// exclusion, and refinement of a bounded queue that drops when full.
module SpscQueue {
  import opened Arith
  import opened BusTypes
  import opened SpscRing

  /** The abstract queue.  `unseen` counts deliveries the producer has not yet
      heard of: until it does, those places still look occupied to it. */
  datatype Queue = Queue(cap: nat, items: seq<BusFrame>, unseen: nat, lost: nat, delivered: seq<BusFrame>)

  datatype Event = Stutter | Learn(n: nat) | Accept(frame: BusFrame) | Refuse | Deliver

  /** Drop-on-full: a frame is accepted exactly when a place is known to be
      free and refused (and counted) exactly when none is. */
  function Apply(q: Queue, e: Event): Option<Queue> {
    match e
    case Stutter => Some(q)
    case Learn(n) => if n <= q.unseen then Some(q.(unseen := q.unseen - n)) else None
    case Accept(f) => if |q.items| + q.unseen < q.cap then Some(q.(items := q.items + [f])) else None
    case Refuse => if |q.items| + q.unseen == q.cap then Some(q.(lost := q.lost + 1)) else None
    case Deliver =>
      if q.items == [] then None else
      Some(q.(items := q.items[1..], unseen := q.unseen + 1, delivered := q.delivered + [q.items[0]]))
  }

  function ApplyAll(q: Queue, es: seq<Event>): Option<Queue>
    decreases |es|
  {
    if es == [] then Some(q) else
    match ApplyAll(q, es[..|es| - 1])
    case None => None
    case Some(mid) => Apply(mid, es[|es| - 1])
  }

  function EventOf(s: Ring, a: Action): Event {
    if !Enabled(0, s, a) then Stutter else
    match a
    case PushLoadHead(_, lag) => Learn(lag)
    case PushTest => if Distance(0, s.prod.t, s.prod.h) >= s.cap then Refuse else Stutter
    case PushPublish => Accept(s.prod.frame)
    case PopPublish => Deliver
    case _ => Stutter
  }

  function EventsOf(s: Ring, acts: seq<Action>): (es: seq<Event>)
    ensures |es| == |acts|
    decreases |acts|
  {
    if acts == [] then [] else
    var front := acts[..|acts| - 1];
    EventsOf(s, front) + [EventOf(Run(0, s, front), acts[|acts| - 1])]
  }

  /** The queue a ring state stands for, read off the slots. */
  function Abstract(s: Ring): Queue {
    Queue(s.cap, Contents(0, s), Distance(0, s.head, s.seenHead), s.dropped, s.popped)
  }

  /** The same queue read off the histories instead of the slots. */
  function ByHistory(s: Ring): Queue
    requires s.head <= |s.accepted| && s.seenHead <= s.head
  {
    Queue(s.cap, s.accepted[s.head..], s.head - s.seenHead, s.dropped, s.popped)
  }

  lemma ContentsAreAccepted(s: Ring)
    requires Inv(s)
    ensures Contents(0, s) == s.accepted[s.head..]
    ensures Abstract(s) == ByHistory(s)
  {
  }

  lemma HistoryRefines(s: Ring, a: Action)
    requires CountersInv(s) && CountersInv(Next(0, s, a))
    ensures Apply(ByHistory(s), EventOf(s, a)) == Some(ByHistory(Next(0, s, a)))
  {
    var n := Next(0, s, a);
    if Enabled(0, s, a) {
      match a
      case PushPublish =>
        assert (s.accepted + [s.prod.frame])[s.head..] == s.accepted[s.head..] + [s.prod.frame];
      case PopPublish =>
        assert s.accepted[s.head..][1..] == s.accepted[s.head + 1..];
      case _ =>
        assert n.accepted == s.accepted && n.head == s.head;
    }
  }

  lemma NextRefines(s: Ring, a: Action)
    requires Inv(s)
    ensures Apply(Abstract(s), EventOf(s, a)) == Some(Abstract(Next(0, s, a)))
  {
    NextInv(s, a);
    ContentsAreAccepted(s);
    ContentsAreAccepted(Next(0, s, a));
    HistoryRefines(s, a);
  }

  /** Refinement over whole runs: every interleaving of the two threads, with
      stale loads, is a run of the bounded drop-on-full queue. */
  lemma {:induction false} RunRefinesQueue(capacity: nat, acts: seq<Action>)
    ensures ApplyAll(Abstract(Init(capacity)), EventsOf(Init(capacity), acts))
            == Some(Abstract(Run(0, Init(capacity), acts)))
    decreases |acts|
  {
    if acts != [] {
      var front := acts[..|acts| - 1];
      RunRefinesQueue(capacity, front);
      InitInv(capacity);
      RunInv(Init(capacity), front);
      NextRefines(Run(0, Init(capacity), front), acts[|acts| - 1]);
      var es := EventsOf(Init(capacity), acts);
      assert es[..|es| - 1] == EventsOf(Init(capacity), front);
    }
  }

  /** Order, bound and slot exclusion in every reachable state. */
  lemma RingSafety(capacity: nat, acts: seq<Action>)
    ensures var s := Run(0, Init(capacity), acts);
            && s.popped + Contents(0, s) == s.accepted
            && s.head <= s.tail <= s.head + s.cap
            && |Contents(0, s)| <= s.cap
            && (s.prod.PMayWrite? && s.cons.CMayCopy? ==> s.prod.t % s.cap != s.cons.h % s.cap)
  {
    InitInv(capacity);
    RunInv(Init(capacity), acts);
    var s := Run(0, Init(capacity), acts);
    ContentsAreAccepted(s);
    if s.prod.PMayWrite? && s.cons.CMayCopy? {
      ModSeparates(s.cons.h, s.prod.t, s.cap);
    }
  }

  /** With a fresh load of head a frame is dropped exactly when the ring is
      full; a stale load can only cause a drop, never an overwrite. */
  lemma DropExactlyWhenFull(capacity: nat, acts: seq<Action>)
    ensures var s := Run(0, Init(capacity), acts);
            s.prod.PHasBoth? ==>
              && (Next(0, s, PushTest).prod == PDone(false) <==> s.tail == s.seenHead + s.cap)
              && (s.seenHead == s.head ==>
                    (Next(0, s, PushTest).prod == PDone(false) <==> |Contents(0, s)| == s.cap))
              && (|Contents(0, s)| == s.cap ==> Next(0, s, PushTest).prod == PDone(false))
  {
    InitInv(capacity);
    RunInv(Init(capacity), acts);
  }

  /** `pop` tests `h == t`, not `h >= t`: on an empty ring it stays empty
      exactly when the loaded tail is not older than one already acted on.
      Read-read coherence of `tail_` is therefore part of the contract. */
  lemma EmptyPopNeedsCoherence(s: Ring, t: nat)
    requires Inv(s) && s.head == s.tail && s.cons == CHasHead(s.head) && t <= s.tail
    ensures var loaded := s.(cons := CHasBoth(s.head, t));
            var after := Next(0, Next(0, Next(0, loaded, PopTest), PopCopy), PopPublish);
            (after.popped == s.popped <==> t >= s.head) && (t < s.head ==> after.head > after.tail)
  {
  }
}
