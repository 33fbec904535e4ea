// The ring with counters that wrap modulo `m`, as `std::size_t` does, against
// the ring whose counters grow without bound.
module RingWrap {
  import opened Arith
  import opened BusTypes
  import opened SpscRing
  import opened SpscQueue

  function WrapProducer(m: nat, p: Producer): Producer
    requires m > 0
  {
    match p
    case PHasHead(f, h) => PHasHead(f, h % m)
    case PHasBoth(f, h, t) => PHasBoth(f, h % m, t % m)
    case PMayWrite(f, t) => PMayWrite(f, t % m)
    case PWrote(f, t) => PWrote(f, t % m)
    case _ => p
  }

  function WrapConsumer(m: nat, c: Consumer): Consumer
    requires m > 0
  {
    match c
    case CIdle => CIdle
    case CHasHead(h) => CHasHead(h % m)
    case CHasBoth(h, t) => CHasBoth(h % m, t % m)
    case CMayCopy(h) => CMayCopy(h % m)
    case CCopied(h, f) => CCopied(h % m, f)
  }

  /** The same state with every counter cut to its low digits. */
  function Wrap(m: nat, s: Ring): Ring
    requires m > 0
  {
    s.(head := s.head % m, tail := s.tail % m, seenHead := s.seenHead % m, seenTail := s.seenTail % m,
       prod := WrapProducer(m, s.prod), cons := WrapConsumer(m, s.cons))
  }

  lemma AdvanceWraps(m: nat, x: nat, n: nat)
    requires m > 0
    ensures Advance(m, x % m, n) == (x + n) % m
  {
    assert x == m * (x / m) + x % m;
    ModOfShift(m, x / m, x % m + n);
  }

  lemma DistanceWraps(m: nat, t: nat, h: nat)
    requires m > 0 && h <= t < h + m
    ensures Distance(m, t % m, h % m) == t - h
  {
    assert t % m - h % m == m * (h / m - t / m) + (t - h);
    ModOfShift(m, h / m - t / m, t - h);
    DivModUnique(m, t - h, 0, t - h);
  }

  /** A slot index is unaffected by the wrap when the capacity divides the
      modulus, or while the counter has not wrapped. */
  lemma SlotWraps(m: nat, cap: nat, t: nat)
    requires m > 0 && cap > 0 && (m % cap == 0 || t < m)
    ensures (t % m) % cap == t % cap
  {
    if t < m {
      DivModUnique(m, t, 0, t);
    } else {
      assert t == cap * ((m / cap) * (t / m)) + t % m;
      ModOfShift(cap, (m / cap) * (t / m), t % m);
    }
  }

  lemma EqualityWraps(m: nat, h: nat, t: nat)
    requires m > 0 && h <= t < h + m
    ensures h == t <==> h % m == t % m
  {
    if h < t {
      ModSeparates(h, t, m);
    }
  }

  lemma ProducerStepWraps(m: nat, s: Ring, a: Action)
    requires CountersInv(s) && s.cap < m && (m % s.cap == 0 || s.tail < m) && ByProducer(a)
    ensures Next(m, Wrap(m, s), a) == Wrap(m, Next(0, s, a))
  {
    match a
    case PushLoadHead(_, lag) =>
      DistanceWraps(m, s.head, s.seenHead);
      AdvanceWraps(m, s.seenHead, lag);
    case PushTest =>
      if s.prod.PHasBoth? { DistanceWraps(m, s.prod.t, s.prod.h); }
    case PushWrite =>
      if s.prod.PMayWrite? { SlotWraps(m, s.cap, s.prod.t); }
    case PushPublish =>
      if s.prod.PWrote? { AdvanceWraps(m, s.prod.t, 1); }
    case _ =>
  }

  lemma ConsumerStepWraps(m: nat, s: Ring, a: Action)
    requires CountersInv(s) && s.cap < m && (m % s.cap == 0 || s.tail < m) && !ByProducer(a)
    ensures Next(m, Wrap(m, s), a) == Wrap(m, Next(0, s, a))
  {
    match a
    case PopLoadTail(lag) =>
      DistanceWraps(m, s.tail, s.seenTail);
      AdvanceWraps(m, s.seenTail, lag);
    case PopTest =>
      if s.cons.CHasBoth? { EqualityWraps(m, s.cons.h, s.cons.t); }
    case PopCopy =>
      if s.cons.CMayCopy? { SlotWraps(m, s.cap, s.cons.h); }
    case PopPublish =>
      if s.cons.CCopied? { AdvanceWraps(m, s.cons.h, 1); }
    case _ =>
  }

  /** Lock step: one step of the wrapping ring is the wrap of one step. */
  lemma NextWraps(m: nat, s: Ring, a: Action)
    requires CountersInv(s) && s.cap < m && (m % s.cap == 0 || s.tail < m)
    ensures Next(m, Wrap(m, s), a) == Wrap(m, Next(0, s, a))
  {
    if ByProducer(a) { ProducerStepWraps(m, s, a); } else { ConsumerStepWraps(m, s, a); }
  }

  lemma TailGrows(s: Ring, a: Action)
    requires Inv(s)
    ensures Next(0, s, a).tail >= s.tail && Next(0, s, a).cap == s.cap
  {
  }

  /** Counter wrap is invisible over whole runs: for ever when the capacity
      divides the modulus, and otherwise as long as tail has not wrapped. */
  lemma {:induction false} RunWraps(m: nat, s: Ring, acts: seq<Action>)
    requires Inv(s) && s.cap < m
    requires m % s.cap == 0 || Run(0, s, acts).tail < m
    ensures Run(m, Wrap(m, s), acts) == Wrap(m, Run(0, s, acts))
    ensures Run(0, s, acts).cap == s.cap
    decreases |acts|
  {
    if acts != [] {
      var front := acts[..|acts| - 1];
      var mid := Run(0, s, front);
      RunInv(s, front);
      TailGrows(mid, acts[|acts| - 1]);
      RunWraps(m, s, front);
      NextWraps(m, mid, acts[|acts| - 1]);
    }
  }

  /** Consumed frames followed by the ring's contents are the accepted frames. */
  predicate Fifo(m: nat, s: Ring) {
    s.popped + Contents(m, s) == s.accepted
  }

  lemma WrappedContents(m: nat, s: Ring)
    requires Inv(s) && s.cap < m && m % s.cap == 0
    ensures Contents(m, Wrap(m, s)) == Contents(0, s)
  {
    DistanceWraps(m, s.tail, s.head);
    forall j: nat | j < s.tail - s.head
      ensures Contents(m, Wrap(m, s))[j] == Contents(0, s)[j]
    {
      AdvanceWraps(m, s.head, j);
      SlotWraps(m, s.cap, s.head + j);
    }
  }

  lemma DividingCapacityKeepsFifo(m: nat, cap: nat, acts: seq<Action>)
    requires 0 < cap < m && m % cap == 0
    ensures Fifo(m, Run(m, Init(cap), acts))
  {
    InitInv(cap);
    RunInv(Init(cap), acts);
    RunWraps(m, Init(cap), acts);
    RingSafety(cap, acts);
    WrappedContents(m, Run(0, Init(cap), acts));
  }

  // What breaks when the capacity does not divide the modulus.

  lemma {:induction false} RunConcat(m: nat, s: Ring, a: seq<Action>, b: seq<Action>)
    ensures Run(m, s, a + b) == Run(m, Run(m, s, a), b)
    decreases |b|
  {
    if b == [] {
      assert a + b == a;
    } else {
      var front := b[..|b| - 1];
      RunConcat(m, s, a, front);
      assert (a + b)[..|a + b| - 1] == a + front;
    }
  }

  lemma RunSix(m: nat, s: Ring, a0: Action, a1: Action, a2: Action, a3: Action, a4: Action, a5: Action)
    ensures Run(m, s, [a0, a1, a2, a3, a4, a5])
            == Next(m, Next(m, Next(m, Next(m, Next(m, Next(m, s, a0), a1), a2), a3), a4), a5)
  {
    RunFive(m, s, a0, a1, a2, a3, a4);
    assert [a0, a1, a2, a3, a4, a5][..5] == [a0, a1, a2, a3, a4];
  }

  lemma RunFive(m: nat, s: Ring, a0: Action, a1: Action, a2: Action, a3: Action, a4: Action)
    ensures Run(m, s, [a0, a1, a2, a3, a4]) == Next(m, Next(m, Next(m, Next(m, Next(m, s, a0), a1), a2), a3), a4)
  {
    assert [a0, a1, a2, a3, a4][..4] == [a0, a1, a2, a3];
    assert [a0, a1, a2, a3][..3] == [a0, a1, a2];
    assert [a0, a1, a2][..2] == [a0, a1];
    assert [a0, a1][..1] == [a0];
    assert [a0][..0] == [];
    assert Run(m, s, [a0]) == Next(m, s, a0);
    assert Run(m, s, [a0, a1, a2]) == Next(m, Next(m, Next(m, s, a0), a1), a2);
  }

  /** A `push` call that runs undisturbed and loads the current head. */
  function PushCall(m: nat, s: Ring, frame: BusFrame): seq<Action> {
    [PushLoadHead(frame, Distance(m, s.head, s.seenHead)), PushLoadTail, PushTest, PushWrite, PushPublish, PushReturn]
  }

  /** A `pop` call that runs undisturbed and loads the current tail. */
  function PopCall(m: nat, s: Ring): seq<Action> {
    [PopLoadHead, PopLoadTail(Distance(m, s.tail, s.seenTail)), PopTest, PopCopy, PopPublish]
  }

  ghost predicate InRange(m: nat, s: Ring) {
    if m == 0 then s.seenHead <= s.head && s.seenTail <= s.tail
    else s.head < m && s.tail < m && s.seenHead < m && s.seenTail < m
  }

  lemma CatchUp(m: nat, seen: nat, now: nat)
    requires if m == 0 then seen <= now else seen < m && now < m
    ensures Advance(m, seen, Distance(m, now, seen)) == now
  {
    if m > 0 {
      var d := (now - seen) % m;
      assert now - seen == m * ((now - seen) / m) + d;
      ModOfShift(m, 0 - (now - seen) / m, now);
      assert seen + d == m * (0 - (now - seen) / m) + now;
      DivModUnique(m, now, 0, now);
    }
  }

  function AfterPush(m: nat, s: Ring, frame: BusFrame): Ring {
    if Distance(m, s.tail, s.head) < s.cap then
      s.(buf := s.buf[s.tail % s.cap := frame], tail := Advance(m, s.tail, 1),
         accepted := s.accepted + [frame], seenHead := s.head)
    else
      s.(dropped := s.dropped + 1, seenHead := s.head)
  }

  function AfterPop(m: nat, s: Ring): Ring {
    if s.head == s.tail then
      s.(seenTail := s.tail)
    else
      s.(head := Advance(m, s.head, 1), popped := s.popped + [s.buf[s.head % s.cap]], seenTail := s.tail)
  }

  lemma PushCallEffect(m: nat, s: Ring, frame: BusFrame)
    requires s.prod == PIdle && InRange(m, s)
    ensures Run(m, s, PushCall(m, s, frame)) == AfterPush(m, s, frame)
  {
    CatchUp(m, s.seenHead, s.head);
    RunSix(m, s, PushLoadHead(frame, Distance(m, s.head, s.seenHead)), PushLoadTail, PushTest, PushWrite,
           PushPublish, PushReturn);
  }

  lemma PopCallEffect(m: nat, s: Ring)
    requires s.cons == CIdle && InRange(m, s)
    ensures Run(m, s, PopCall(m, s)) == AfterPop(m, s)
  {
    CatchUp(m, s.seenTail, s.tail);
    RunFive(m, s, PopLoadHead, PopLoadTail(Distance(m, s.tail, s.seenTail)), PopTest, PopCopy, PopPublish);
  }

  /** Both sides idle, counters as given, and every accepted frame blank. */
  ghost predicate IdleAt(s: Ring, head: nat, tail: nat) {
    && s.prod == PIdle && s.cons == CIdle && s.head == head && s.tail == tail
    && AllBlank(s.accepted)
  }

  ghost predicate AllBlank(frames: seq<BusFrame>) {
    forall f | f in frames :: f == Blank()
  }

  /** A run that fills and drains the ring one frame at a time, `head` times,
      and then pushes `tail - head` more frames. */
  lemma {:induction false} Reach(start: Ring, head: nat, tail: nat) returns (acts: seq<Action>, s: Ring)
    requires Inv(start) && IdleAt(start, 0, 0)
    requires head <= tail <= head + start.cap
    ensures s == Run(0, start, acts)
    ensures IdleAt(s, head, tail) && Inv(s) && s.cap == start.cap
    decreases tail, head
  {
    if tail == 0 {
      acts, s := [], start;
    } else if head == tail {
      var before, mid := Reach(start, head - 1, tail);
      PopCallEffect(0, mid);
      acts := before + PopCall(0, mid);
      s := AfterPop(0, mid);
      RunConcat(0, start, before, PopCall(0, mid));
      RunInv(mid, PopCall(0, mid));
    } else {
      var before, mid := Reach(start, head, tail - 1);
      PushCallEffect(0, mid, Blank());
      acts := before + PushCall(0, mid, Blank());
      s := AfterPush(0, mid, Blank());
      RunConcat(0, start, before, PushCall(0, mid, Blank()));
      RunInv(mid, PushCall(0, mid, Blank()));
    }
  }

  /** A live slot that no longer holds the frame accepted for it breaks the order. */
  lemma LostFrameBreaksFifo(m: nat, s: Ring, k: nat)
    requires s.head == |s.popped| <= k < m && k < |s.accepted|
    requires k < s.head + Distance(m, s.tail, s.head)
    requires s.buf[k % s.cap] != s.accepted[k]
    ensures !Fifo(m, s)
  {
    DivModUnique(m, k, 0, k);
    assert Contents(m, s)[k - s.head] == s.buf[k % s.cap];
    assert (s.popped + Contents(m, s))[k] == s.buf[k % s.cap];
  }

  lemma BlankUpTo(frames: seq<BusFrame>, last: BusFrame, k: nat)
    requires AllBlank(frames) && k <= |frames|
    ensures (frames + [Blank()] + [last])[k] == Blank()
  {
    if k < |frames| {
      assert frames[k] in frames;
    }
  }

  /** Two more pushes into a nearly wrapped ring: the second lands on slot 0,
      which still holds the frame accepted as number `m - m % cap`. */
  lemma SecondPushOverwrites(m: nat, w: Ring, marked: BusFrame)
    requires w.cap < m && m % w.cap != 0 && marked != Blank()
    requires w.head == |w.popped| == m - w.cap + 1 && w.tail == |w.accepted| == m - 1 && AllBlank(w.accepted)
    ensures !Fifo(m, AfterPush(m, AfterPush(m, w, Blank()), marked))
  {
    DistancesAtTheWrap(m, w.cap);
    var w1 := AfterPush(m, w, Blank());
    var w2 := AfterPush(m, w1, marked);
    var lost := m - m % w.cap;
    LostIndex(m, w.cap);
    assert w2.accepted == w.accepted + [Blank()] + [marked];
    BlankUpTo(w.accepted, marked, lost);
    assert w2.buf[0] == marked;
    LostFrameBreaksFifo(m, w2, lost);
  }

  lemma DistancesAtTheWrap(m: nat, cap: nat)
    requires 2 <= cap < m
    ensures Distance(m, m - 1, m - cap + 1) == cap - 2
    ensures Distance(m, 0, m - cap + 1) == cap - 1
    ensures Distance(m, 1, m - cap + 1) == cap
    ensures Advance(m, m - 1, 1) == 0 && Advance(m, 0, 1) == 1
  {
    DivModUnique(m, m - 1 - (m - cap + 1), 0, cap - 2);
    DivModUnique(m, 0 - (m - cap + 1), -1, cap - 1);
    DivModUnique(m, 1 - (m - cap + 1), -1, cap);
    DivModUnique(m, m, 1, 0);
  }

  /** A run of the wrapping ring, of capacity not dividing the modulus, that
      overwrites a frame not yet consumed right after tail wraps to zero. */
  lemma WrapLosesAFrame(m: nat, cap: nat) returns (acts: seq<Action>)
    requires 0 < cap < m && m % cap != 0
    ensures !Fifo(m, Run(m, Init(cap), acts))
  {
    InitInv(cap);
    var filled, u := Reach(Init(cap), m - cap + 1, m - 1);
    RunWraps(m, Init(cap), filled);
    DivModUnique(m, m - cap + 1, 0, m - cap + 1);
    DivModUnique(m, m - 1, 0, m - 1);
    var w := Wrap(m, u);
    var marked := Blank().(id := 1);
    var w1 := AfterPush(m, w, Blank());
    SecondPushOverwrites(m, w, marked);
    var first, second := PushCall(m, w, Blank()), PushCall(m, w1, marked);
    PushCallEffect(m, w, Blank());
    PushCallEffect(m, w1, marked);
    RunConcat(m, Init(cap), filled, first);
    RunConcat(m, Init(cap), filled + first, second);
    acts := filled + first + second;
  }

  lemma LostIndex(m: nat, cap: nat)
    requires 0 < cap < m && m % cap != 0
    ensures var lost := m - m % cap; m - cap < lost < m && lost % cap == 0
  {
    assert m - m % cap == cap * (m / cap);
    DivModUnique(cap, m - m % cap, m / cap, 0);
  }

  /** Exactly when the ring with `std::size_t` counters is first-in first-out
      for ever: when its capacity divides the counter modulus. */
  lemma FifoForEverIffCapacityDivides(m: nat, cap: nat)
    requires 0 < cap < m
    ensures (forall acts: seq<Action> :: Fifo(m, Run(m, Init(cap), acts))) <==> m % cap == 0
  {
    if m % cap == 0 {
      forall acts: seq<Action>
        ensures Fifo(m, Run(m, Init(cap), acts))
      {
        DividingCapacityKeepsFifo(m, cap, acts);
      }
    } else {
      var acts := WrapLosesAFrame(m, cap);
    }
  }
}
