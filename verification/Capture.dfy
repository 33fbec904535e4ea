// The capture path end to end: controller (start/stop), worker thread, ring
// and consumer, as one step system (software/src/data/capture_service.cpp).
//
// One controller calls `start` and `stop`, one consumer calls `pop`; every
// atomic access of the three threads is a step of its own.
module Capture {
  import opened BusTypes
  import Ring = SpscRing
  import RingWrap

  const BATCH_FRAMES: nat := 256

  datatype Controller = CtlIdle | CtlStarting | CtlOpened | CtlSpawning | CtlJoining

  /** Where the worker is in `CaptureService::run`; `WDone` has left the loop
      and waits to be joined. */
  datatype Worker =
    | WNone
    | WTest
    | WRead
    | WPush(batch: seq<BusFrame>, i: nat)
    | WCounted(batch: seq<BusFrame>, i: nat)
    | WPolled
    | WDone

  /** `stream` is everything the device has handed over, `acceptedAt` the
      stream positions of the accepted frames, `clashed` whether a thread was
      ever assigned over one that had not been joined. */
  datatype System = System(
    ring: Ring.Ring,
    running: bool,
    devOpen: bool,
    ctl: Controller,
    worker: Worker,
    stream: seq<BusFrame>,
    acceptedAt: seq<nat>,
    offered: nat,
    pushed: nat,
    polls: nat,
    clashed: bool)

  datatype Action =
    | StartTest
    | StartOpen(ok: bool)
    | StartSetRunning
    | StartSpawn
    | StopExchange
    | StopJoin
    | WorkerTest(sees: bool)
    | WorkerRead(frames: seq<BusFrame>)
    | WorkerPush(step: Ring.Action)
    | WorkerCountPushed
    | WorkerCountOffered
    | WorkerPoll
    | WorkerLoop
    | Consume(step: Ring.Action)

  function Init(capacity: nat, devOpen: bool): System {
    System(Ring.Init(capacity), false, devOpen, CtlIdle, WNone, [], [], 0, 0, 0, false)
  }

  /** A stale load of `running_` may still see true after stop cleared it. */
  predicate Enabled(m: nat, s: System, a: Action) {
    match a
    case StartTest => s.ctl.CtlIdle?
    case StartOpen(_) => s.ctl.CtlStarting?
    case StartSetRunning => s.ctl.CtlOpened?
    case StartSpawn => s.ctl.CtlSpawning?
    case StopExchange => s.ctl.CtlIdle?
    case StopJoin => s.ctl.CtlJoining? && s.worker.WDone?
    case WorkerTest(sees) => s.worker.WTest? && (sees || !s.running)
    case WorkerRead(frames) => s.worker.WRead? && |frames| <= BATCH_FRAMES
    case WorkerPush(step) =>
      && s.worker.WPush? && s.worker.i < |s.worker.batch|
      && Ring.ByProducer(step) && !step.PushReturn?
      && (step.PushLoadHead? ==> step.frame == s.worker.batch[s.worker.i])
      && Ring.Enabled(m, s.ring, step)
    case WorkerCountPushed => s.worker.WPush? && s.ring.prod.PDone?
    case WorkerCountOffered => s.worker.WCounted?
    case WorkerPoll => s.worker.WPush? && s.worker.i >= |s.worker.batch|
    case WorkerLoop => s.worker.WPolled?
    case Consume(step) => !Ring.ByProducer(step)
  }

  function Next(m: nat, s: System, a: Action): System {
    if !Enabled(m, s, a) then s else
    match a
    case StartTest => if s.running then s else s.(ctl := CtlStarting)
    case StartOpen(ok) =>
      if s.devOpen then s.(ctl := CtlOpened) else
      if ok then s.(devOpen := true, ctl := CtlOpened) else s.(ctl := CtlIdle)
    case StartSetRunning => s.(running := true, ctl := CtlSpawning)
    case StartSpawn => s.(clashed := s.clashed || !s.worker.WNone?, worker := WTest, ctl := CtlIdle)
    case StopExchange => if s.running then s.(running := false, ctl := CtlJoining) else s
    case StopJoin => s.(worker := WNone, ctl := CtlIdle)
    case WorkerTest(sees) => s.(worker := if sees then WRead else WDone)
    case WorkerRead(frames) => s.(stream := s.stream + frames, worker := WPush(frames, 0))
    case WorkerPush(step) =>
      s.(ring := Ring.Next(m, s.ring, step),
         acceptedAt := if step.PushPublish? then s.acceptedAt + [s.offered] else s.acceptedAt)
    case WorkerCountPushed =>
      s.(ring := Ring.Next(m, s.ring, Ring.PushReturn),
         pushed := s.pushed + (if s.ring.prod.ok then 1 else 0),
         worker := WCounted(s.worker.batch, s.worker.i))
    case WorkerCountOffered =>
      s.(offered := s.offered + 1, worker := WPush(s.worker.batch, s.worker.i + 1))
    case WorkerPoll => s.(polls := s.polls + 1, worker := WPolled)
    case WorkerLoop => s.(worker := WTest)
    case Consume(step) => s.(ring := Ring.Next(m, s.ring, step))
  }

  function Run(m: nat, s: System, acts: seq<Action>): System
    decreases |acts|
  {
    if acts == [] then s else Next(m, Run(m, s, acts[..|acts| - 1]), acts[|acts| - 1])
  }

  /** `at` places the elements of `part` in `whole`, in order. */
  ghost predicate Embeds(part: seq<BusFrame>, whole: seq<BusFrame>, at: seq<nat>) {
    && |at| == |part|
    && (forall j | 0 <= j < |at| :: at[j] < |whole| && part[j] == whole[at[j]])
    && Increasing(at)
  }

  ghost predicate Increasing(at: seq<nat>) {
    forall i, j | 0 <= i < j < |at| :: at[i] < at[j]
  }

  /** `stop` has returned, or `start` was never called. */
  predicate Stopped(s: System) {
    s.ctl.CtlIdle? && !s.running
  }

  /** Frames whose fate (accepted or dropped) is settled. */
  function Settled(s: System): nat {
    |s.ring.accepted| + s.ring.dropped
  }

  ghost predicate BetweenBatches(s: System) {
    s.ring.prod.PIdle? && s.offered == |s.stream| && s.pushed == |s.ring.accepted| && Settled(s) == s.offered
  }

  ghost predicate InBatch(s: System, batch: seq<BusFrame>, i: nat) {
    && i <= |batch| <= |s.stream| && |batch| <= BATCH_FRAMES && batch == s.stream[|s.stream| - |batch|..]
    && s.offered == |s.stream| - |batch| + i
  }

  ghost predicate PushingInv(s: System, batch: seq<BusFrame>, i: nat) {
    match s.ring.prod
    case PIdle => s.pushed == |s.ring.accepted| && Settled(s) == s.offered
    case PDone(ok) =>
      && i < |batch| && s.pushed + (if ok then 1 else 0) == |s.ring.accepted| && Settled(s) == s.offered + 1
    case _ =>
      && i < |batch| && s.ring.prod.frame == batch[i]
      && s.pushed == |s.ring.accepted| && Settled(s) == s.offered
  }

  ghost predicate WorkerInv(s: System) {
    match s.worker
    case WPush(batch, i) => InBatch(s, batch, i) && PushingInv(s, batch, i)
    case WCounted(batch, i) =>
      && InBatch(s, batch, i) && i < |batch| && s.ring.prod.PIdle?
      && s.pushed == |s.ring.accepted| && Settled(s) == s.offered + 1
    case _ => BetweenBatches(s)
  }

  ghost predicate ControlInv(s: System) {
    && !s.clashed
    && (s.ctl.CtlIdle? ==> (s.running <==> !s.worker.WNone?) && !(s.running && s.worker.WDone?))
    && (s.ctl.CtlStarting? || s.ctl.CtlOpened? ==> !s.running && s.worker.WNone?)
    && (s.ctl.CtlSpawning? ==> s.running && s.worker.WNone?)
    && (s.ctl.CtlJoining? ==> !s.running && !s.worker.WNone?)
  }

  ghost predicate PositionsInv(s: System) {
    && Embeds(s.ring.accepted, s.stream, s.acceptedAt)
    && (forall j | 0 <= j < |s.acceptedAt| :: s.acceptedAt[j] < Settled(s))
  }

  ghost predicate Inv(s: System) {
    Ring.Inv(s.ring) && ControlInv(s) && WorkerInv(s) && PositionsInv(s)
  }

  lemma ControlStep(s: System, a: Action)
    requires ControlInv(s)
    ensures ControlInv(Next(0, s, a))
  {
  }

  lemma RingPart(s: System, a: Action)
    requires Ring.Inv(s.ring)
    ensures Ring.Inv(Next(0, s, a).ring)
  {
    match a
    case WorkerPush(step) => Ring.NextInv(s.ring, step);
    case WorkerCountPushed => Ring.NextInv(s.ring, Ring.PushReturn);
    case Consume(step) => Ring.NextInv(s.ring, step);
    case _ =>
  }

  /** What one step of `push` does to the frame being pushed. */
  lemma PushStepOutcome(s: System, step: Ring.Action)
    requires WorkerInv(s) && Enabled(0, s, WorkerPush(step))
    ensures var n := Next(0, s, WorkerPush(step)); PushingInv(n, s.worker.batch, s.worker.i)
  {
  }

  lemma PushKeepsWorkerInv(s: System, step: Ring.Action)
    requires WorkerInv(s)
    ensures WorkerInv(Next(0, s, WorkerPush(step)))
  {
    if Enabled(0, s, WorkerPush(step)) {
      PushStepOutcome(s, step);
      assert InBatch(Next(0, s, WorkerPush(step)), s.worker.batch, s.worker.i);
    }
  }

  lemma ConsumeOutcome(s: System, step: Ring.Action)
    requires !Ring.ByProducer(step)
    ensures var n := Next(0, s, Consume(step));
            n.ring.prod == s.ring.prod && n.ring.accepted == s.ring.accepted && n.ring.dropped == s.ring.dropped
  {
  }

  lemma ConsumeKeepsWorkerInv(s: System, step: Ring.Action)
    requires WorkerInv(s)
    ensures WorkerInv(Next(0, s, Consume(step)))
  {
    if !Ring.ByProducer(step) {
      ConsumeOutcome(s, step);
    }
  }

  predicate ByController(a: Action) {
    a.StartTest? || a.StartOpen? || a.StartSetRunning? || a.StartSpawn? || a.StopExchange? || a.StopJoin?
  }

  lemma ControllerKeepsWorkerInv(s: System, a: Action)
    requires ControlInv(s) && WorkerInv(s) && ByController(a)
    ensures WorkerInv(Next(0, s, a))
  {
  }

  lemma CountersKeepWorkerInv(s: System, a: Action)
    requires WorkerInv(s) && (a.WorkerCountPushed? || a.WorkerCountOffered?)
    ensures WorkerInv(Next(0, s, a))
  {
  }

  lemma LoopKeepsWorkerInv(s: System, a: Action)
    requires WorkerInv(s) && (a.WorkerTest? || a.WorkerRead? || a.WorkerPoll? || a.WorkerLoop?)
    ensures WorkerInv(Next(0, s, a))
  {
    var n := Next(0, s, a);
    if a.WorkerRead? && Enabled(0, s, a) {
      assert n.stream[|n.stream| - |a.frames|..] == a.frames;
    }
  }

  lemma WorkerStep(s: System, a: Action)
    requires ControlInv(s) && WorkerInv(s)
    ensures WorkerInv(Next(0, s, a))
  {
    match a
    case WorkerPush(step) => PushKeepsWorkerInv(s, step);
    case Consume(step) => ConsumeKeepsWorkerInv(s, step);
    case WorkerCountPushed => CountersKeepWorkerInv(s, a);
    case WorkerCountOffered => CountersKeepWorkerInv(s, a);
    case _ => if ByController(a) { ControllerKeepsWorkerInv(s, a); } else { LoopKeepsWorkerInv(s, a); }
  }

  lemma PositionsUnmoved(s: System, n: System)
    requires PositionsInv(s) && s.stream <= n.stream && n.acceptedAt == s.acceptedAt
    requires n.ring.accepted == s.ring.accepted && Settled(s) <= Settled(n)
    ensures PositionsInv(n)
  {
  }

  lemma PublishPosition(s: System)
    requires PositionsInv(s) && s.worker.WPush? && WorkerInv(s) && s.ring.prod.PWrote?
    ensures PositionsInv(Next(0, s, WorkerPush(Ring.PushPublish)))
  {
    var batch, i := s.worker.batch, s.worker.i;
    assert s.stream[s.offered] == batch[i];
    EmbedsOneMore(s.ring.accepted, s.stream, s.acceptedAt, s.offered);
  }

  lemma EmbedsOneMore(part: seq<BusFrame>, whole: seq<BusFrame>, at: seq<nat>, pos: nat)
    requires Embeds(part, whole, at) && pos < |whole| && forall j | 0 <= j < |at| :: at[j] < pos
    ensures Embeds(part + [whole[pos]], whole, at + [pos])
  {
  }

  lemma PositionsStep(s: System, a: Action)
    requires WorkerInv(s) && PositionsInv(s)
    ensures PositionsInv(Next(0, s, a))
  {
    if a == WorkerPush(Ring.PushPublish) && Enabled(0, s, a) {
      PublishPosition(s);
    } else {
      OthersKeepAccepted(s, a);
      PositionsUnmoved(s, Next(0, s, a));
    }
  }

  lemma OthersKeepAccepted(s: System, a: Action)
    requires a != WorkerPush(Ring.PushPublish) || !Enabled(0, s, a)
    ensures var n := Next(0, s, a);
            && s.stream <= n.stream && n.acceptedAt == s.acceptedAt
            && n.ring.accepted == s.ring.accepted && Settled(s) <= Settled(n)
  {
    match a
    case WorkerPush(step) => PushKeepsAccepted(s, step);
    case Consume(step) => if !Ring.ByProducer(step) { ConsumeOutcome(s, step); }
    case _ =>
  }

  lemma PushKeepsAccepted(s: System, step: Ring.Action)
    requires step != Ring.PushPublish || !Enabled(0, s, WorkerPush(step))
    ensures var n := Next(0, s, WorkerPush(step));
            && n.stream == s.stream && n.acceptedAt == s.acceptedAt
            && n.ring.accepted == s.ring.accepted && Settled(s) <= Settled(n)
  {
  }

  lemma {:induction false} RunInv(capacity: nat, devOpen: bool, acts: seq<Action>)
    ensures Inv(Run(0, Init(capacity, devOpen), acts))
    decreases |acts|
  {
    if acts == [] {
      Ring.InitInv(capacity);
    } else {
      RunInv(capacity, devOpen, acts[..|acts| - 1]);
      var s, a := Run(0, Init(capacity, devOpen), acts[..|acts| - 1]), acts[|acts| - 1];
      ControlStep(s, a);
      RingPart(s, a);
      WorkerStep(s, a);
      PositionsStep(s, a);
    }
  }

  // The same system over a ring whose counters wrap.

  function Wrap(m: nat, s: System): System
    requires m > 0
  {
    s.(ring := RingWrap.Wrap(m, s.ring))
  }

  lemma NextWraps(m: nat, s: System, a: Action)
    requires Ring.Inv(s.ring) && s.ring.cap < m && (m % s.ring.cap == 0 || s.ring.tail < m)
    ensures Next(m, Wrap(m, s), a) == Wrap(m, Next(0, s, a))
  {
    match a
    case WorkerPush(step) => PushWraps(m, s, step);
    case Consume(step) => RingWrap.NextWraps(m, s.ring, step);
    case _ => if ByController(a) { ControllerWraps(m, s, a); } else { WorkerWraps(m, s, a); }
  }

  lemma ControllerWraps(m: nat, s: System, a: Action)
    requires m > 0 && ByController(a)
    ensures Next(m, Wrap(m, s), a) == Wrap(m, Next(0, s, a))
  {
  }

  lemma WorkerWraps(m: nat, s: System, a: Action)
    requires m > 0 && !a.WorkerPush? && !a.Consume? && !ByController(a)
    ensures Next(m, Wrap(m, s), a) == Wrap(m, Next(0, s, a))
  {
  }

  lemma PushWraps(m: nat, s: System, step: Ring.Action)
    requires Ring.Inv(s.ring) && s.ring.cap < m && (m % s.ring.cap == 0 || s.ring.tail < m)
    ensures Next(m, Wrap(m, s), WorkerPush(step)) == Wrap(m, Next(0, s, WorkerPush(step)))
  {
    EnabledWraps(m, s.ring, step);
    RingWrap.NextWraps(m, s.ring, step);
  }

  lemma EnabledWraps(m: nat, s: Ring.Ring, step: Ring.Action)
    requires Ring.Inv(s) && s.cap < m
    ensures Ring.Enabled(m, RingWrap.Wrap(m, s), step) == Ring.Enabled(0, s, step)
  {
    RingWrap.DistanceWraps(m, s.head, s.seenHead);
    RingWrap.DistanceWraps(m, s.tail, s.seenTail);
  }

  lemma AcceptedGrows(m: nat, s: System, a: Action)
    ensures |Next(m, s, a).ring.accepted| >= |s.ring.accepted| && Next(m, s, a).ring.cap == s.ring.cap
  {
  }

  lemma {:induction false} RunWraps(m: nat, capacity: nat, devOpen: bool, acts: seq<Action>)
    requires var s := Init(capacity, devOpen);
             s.ring.cap < m && (m % s.ring.cap == 0 || |Run(m, s, acts).ring.accepted| < m)
    ensures Run(m, Init(capacity, devOpen), acts) == Wrap(m, Run(0, Init(capacity, devOpen), acts))
    ensures Run(0, Init(capacity, devOpen), acts).ring.cap == Init(capacity, devOpen).ring.cap
    decreases |acts|
  {
    if acts != [] {
      var s, front, a := Init(capacity, devOpen), acts[..|acts| - 1], acts[|acts| - 1];
      AcceptedGrows(m, Run(m, s, front), a);
      RunWraps(m, capacity, devOpen, front);
      RunInv(capacity, devOpen, front);
      AcceptedGrows(0, Run(0, s, front), a);
      NextWraps(m, Run(0, s, front), a);
    }
  }

  // What the capture path promises.

  lemma {:induction false} AtLeastItsRank(at: seq<nat>, j: nat)
    requires Increasing(at) && j < |at|
    ensures at[j] >= j
  {
    if j > 0 {
      AtLeastItsRank(at, j - 1);
      assert at[j - 1] < at[j];
    }
  }

  lemma {:induction false} AtMostItsRank(at: seq<nat>, n: nat, j: nat)
    requires Increasing(at) && j < |at| <= n && forall k | 0 <= k < |at| :: at[k] < n
    ensures at[j] <= n - (|at| - j)
    decreases |at| - j
  {
    if j + 1 < |at| {
      AtMostItsRank(at, n, j + 1);
      assert at[j] < at[j + 1];
    }
  }

  lemma NoDropMeansPrefix(s: System)
    requires Inv(s) && s.ring.dropped == 0
    ensures s.ring.popped <= s.stream
  {
    forall j | 0 <= j < |s.ring.popped|
      ensures s.ring.popped[j] == s.stream[j]
    {
      AtLeastItsRank(s.acceptedAt, j);
      AtMostItsRank(s.acceptedAt, Settled(s), j);
    }
    AtMostStream(s);
  }

  lemma AtMostStream(s: System)
    requires Inv(s)
    ensures Settled(s) <= |s.stream|
  {
  }

  /** The result over all runs of controller, worker and consumer, for any
      counter width the ring tolerates: conservation, order and one worker. */
  lemma CaptureSafety(m: nat, capacity: nat, devOpen: bool, acts: seq<Action>)
    requires var s := Init(capacity, devOpen);
             m == 0 || (s.ring.cap < m && (m % s.ring.cap == 0 || |Run(m, s, acts).ring.accepted| < m))
    ensures var s := Run(m, Init(capacity, devOpen), acts);
            && !s.clashed
            && (Stopped(s) ==> s.worker == WNone)
            && (Stopped(s) ==> |s.stream| == s.offered == s.pushed + s.ring.dropped)
            && (Stopped(s) ==> s.pushed == |s.ring.popped| + Ring.Distance(m, s.ring.tail, s.ring.head))
            && s.pushed + s.ring.dropped <= s.offered + 1 && s.offered <= |s.stream| <= s.offered + BATCH_FRAMES
            && (exists at :: Embeds(s.ring.popped, s.stream, at))
            && (s.ring.dropped == 0 ==> s.ring.popped <= s.stream)
  {
    RunInv(capacity, devOpen, acts);
    var u := Run(0, Init(capacity, devOpen), acts);
    var s := Run(m, Init(capacity, devOpen), acts);
    if m > 0 {
      RunWraps(m, capacity, devOpen, acts);
      RingWrap.DistanceWraps(m, u.ring.tail, u.ring.head);
    }
    assert Embeds(u.ring.popped, u.stream, u.acceptedAt[..u.ring.head]);
    if u.ring.dropped == 0 { NoDropMeansPrefix(u); }
  }

  /** The batch size of the service. */
  lemma BatchSize()
    ensures BATCH_FRAMES == 256
  {
  }
}
