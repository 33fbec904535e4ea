// Starting and stopping the capture worker, over counters of any width: `stop`
// always gets there, with the batch in hand offered, and `start` gets a worker
// going (software/src/data/capture_service.cpp).
module CaptureLife {
  import opened BusTypes
  import opened Capture
  import Ring = SpscRing

  // ----- what every step keeps, whatever the counter width -----

  /** Where the worker is in its batch, and how much of it has been offered. */
  ghost predicate BatchInv(s: System) {
    match s.worker
    case WPush(batch, i) =>
      InBatch(s, batch, i) && (s.ring.prod.PIdle? || (i < |batch| && PushesFrame(s.ring.prod, batch[i])))
    case WCounted(batch, i) => InBatch(s, batch, i) && i < |batch| && s.ring.prod.PIdle?
    case _ => s.ring.prod.PIdle? && s.offered == |s.stream|
  }

  ghost predicate PushesFrame(prod: Ring.Producer, frame: BusFrame) {
    match prod
    case PHasHead(f, _) => f == frame
    case PHasBoth(f, _, _) => f == frame
    case PMayWrite(f, _) => f == frame
    case PWrote(f, _) => f == frame
    case _ => true
  }

  lemma ControlKept(m: nat, s: System, a: Action)
    requires ControlInv(s)
    ensures ControlInv(Next(m, s, a))
  {
  }

  lemma PushKeepsBatch(m: nat, s: System, step: Ring.Action)
    requires BatchInv(s)
    ensures BatchInv(Next(m, s, WorkerPush(step)))
  {
    if Enabled(m, s, WorkerPush(step)) {
      var n := Next(m, s, WorkerPush(step));
      assert InBatch(n, s.worker.batch, s.worker.i);
    }
  }

  lemma ConsumeKeepsBatch(m: nat, s: System, step: Ring.Action)
    requires BatchInv(s)
    ensures BatchInv(Next(m, s, Consume(step)))
  {
    assert Ring.ByProducer(step) || Ring.Next(m, s.ring, step).prod == s.ring.prod;
  }

  lemma OthersKeepBatch(m: nat, s: System, a: Action)
    requires BatchInv(s) && ControlInv(s) && !a.WorkerPush? && !a.Consume?
    ensures BatchInv(Next(m, s, a))
  {
    var n := Next(m, s, a);
    if a.WorkerRead? && Enabled(m, s, a) {
      assert n.stream[|n.stream| - |a.frames|..] == a.frames;
    }
  }

  lemma BatchKept(m: nat, s: System, a: Action)
    requires BatchInv(s) && ControlInv(s)
    ensures BatchInv(Next(m, s, a))
  {
    match a
    case WorkerPush(step) => PushKeepsBatch(m, s, step);
    case Consume(step) => ConsumeKeepsBatch(m, s, step);
    case _ => OthersKeepBatch(m, s, a);
  }

  lemma {:induction false} RunKeeps(m: nat, capacity: nat, devOpen: bool, acts: seq<Action>)
    ensures var s := Run(m, Init(capacity, devOpen), acts); BatchInv(s) && ControlInv(s)
    decreases |acts|
  {
    if acts != [] {
      RunKeeps(m, capacity, devOpen, acts[..|acts| - 1]);
      var s := Run(m, Init(capacity, devOpen), acts[..|acts| - 1]);
      ControlKept(m, s, acts[|acts| - 1]);
      BatchKept(m, s, acts[|acts| - 1]);
    }
  }

  lemma {:induction false} RunConcat(m: nat, s: System, a: seq<Action>, b: seq<Action>)
    ensures Run(m, s, a + b) == Run(m, Run(m, s, a), b)
    decreases |b|
  {
    if b == [] {
      assert a + b == a;
    } else {
      RunConcat(m, s, a, b[..|b| - 1]);
      assert (a + b)[..|a + b| - 1] == a + b[..|b| - 1];
    }
  }

  lemma RunOne(m: nat, s: System, a: Action)
    ensures Run(m, s, [a]) == Next(m, s, a)
  {
    assert [a][..0] == [];
  }

  // ----- the worker winds down -----

  /** Steps of one frame still to do. */
  function PushLeft(prod: Ring.Producer): nat {
    match prod
    case PIdle => 7
    case PHasHead(_, _) => 6
    case PHasBoth(_, _, _) => 5
    case PMayWrite(_, _) => 4
    case PWrote(_, _) => 3
    case PDone(_) => 2
  }

  /** Steps before a worker that sees the cleared flag has left its loop. */
  function Left(s: System): nat {
    match s.worker
    case WNone => 0
    case WDone => 0
    case WTest => 1
    case WPolled => 2
    case WRead => 4 + 7 * BATCH_FRAMES
    case WPush(batch, i) => if i < |batch| then 3 + 7 * (|batch| - i - 1) + PushLeft(s.ring.prod) else 3
    case WCounted(batch, i) => if i < |batch| then 4 + 7 * (|batch| - i - 1) else 4
  }

  predicate ByWorker(a: Action) {
    || a.WorkerTest? || a.WorkerRead? || a.WorkerPush? || a.WorkerCountPushed? || a.WorkerCountOffered?
    || a.WorkerPoll? || a.WorkerLoop?
  }

  /** A full batch at most is left. */
  lemma LeftBound(s: System)
    requires BatchInv(s)
    ensures Left(s) <= 4 + 7 * 256
  {
  }

  /** Every step of the worker, a stale test of the flag apart, brings it closer
      to the end, whatever the device returns and the consumer does. */
  lemma WorkerWindsDown(m: nat, s: System, a: Action)
    requires BatchInv(s) && ByWorker(a) && Enabled(m, s, a) && a != WorkerTest(true)
    ensures Left(Next(m, s, a)) < Left(s)
  {
  }

  lemma OthersLeaveWorkAlone(m: nat, s: System, a: Action)
    requires a.Consume? || a == StopExchange
    ensures Left(Next(m, s, a)) == Left(s) && Next(m, s, a).worker == s.worker
  {
    if a.Consume? {
      assert Ring.ByProducer(a.step) || Ring.Next(m, s.ring, a.step).prod == s.ring.prod;
    }
  }

  /** The worker's next step once the flag is cleared; a read returns nothing. */
  function WindDownStep(s: System): Action {
    match s.worker
    case WTest => WorkerTest(false)
    case WRead => WorkerRead([])
    case WPush(batch, i) =>
      if i >= |batch| then WorkerPoll else
      (match s.ring.prod
       case PIdle => WorkerPush(Ring.PushLoadHead(batch[i], 0))
       case PHasHead(_, _) => WorkerPush(Ring.PushLoadTail)
       case PHasBoth(_, _, _) => WorkerPush(Ring.PushTest)
       case PMayWrite(_, _) => WorkerPush(Ring.PushWrite)
       case PWrote(_, _) => WorkerPush(Ring.PushPublish)
       case PDone(_) => WorkerCountPushed)
    case WCounted(_, _) => WorkerCountOffered
    case _ => WorkerLoop
  }

  /** It is never stuck. */
  lemma WindDownEnabled(m: nat, s: System)
    requires BatchInv(s) && !s.running && Left(s) > 0
    ensures ByWorker(WindDownStep(s)) && WindDownStep(s) != WorkerTest(true) && Enabled(m, s, WindDownStep(s))
  {
  }

  /** A batch is in hand, or about to be read. */
  predicate InHand(s: System) {
    s.worker.WRead? || s.worker.WPush? || s.worker.WCounted?
  }

  lemma WindDownOutcome(m: nat, s: System)
    requires BatchInv(s) && !s.running && Left(s) > 0
    ensures var n := Next(m, s, WindDownStep(s));
            && n.stream == s.stream && n.running == s.running && n.ctl == s.ctl && n.devOpen == s.devOpen
            && !n.worker.WNone?
            && n.polls + (if InHand(n) then 1 else 0) == s.polls + (if InHand(s) then 1 else 0)
  {
    WindDownEnabled(m, s);
  }

  /** The worker steps that finish the batch in hand and leave the loop. */
  lemma {:induction false} WindDown(m: nat, s: System) returns (acts: seq<Action>)
    requires BatchInv(s) && ControlInv(s) && !s.running && !s.worker.WNone?
    ensures |acts| <= Left(s) && forall a | a in acts :: ByWorker(a)
    ensures var n := Run(m, s, acts);
            && n.worker == WDone && n.ctl == s.ctl && !n.running && n.devOpen == s.devOpen
            && n.stream == s.stream && n.offered == |s.stream|
            && n.polls == s.polls + (if InHand(s) then 1 else 0)
    decreases Left(s)
  {
    if Left(s) == 0 {
      acts := [];
    } else {
      var a := WindDownStep(s);
      WindDownEnabled(m, s);
      WorkerWindsDown(m, s, a);
      WindDownOutcome(m, s);
      BatchKept(m, s, a);
      ControlKept(m, s, a);
      var rest := WindDown(m, Next(m, s, a));
      acts := [a] + rest;
      RunOne(m, s, a);
      RunConcat(m, s, [a], rest);
    }
  }

  // ----- stop and start -----

  /** In every reachable state with an idle controller: `stop` of a running
      service clears the flag and waits, and from there worker steps, at most as
      many as the batch in hand calls for, and the join bring it to a stop, with
      that batch offered to the last frame and its poll counted. */
  lemma StopCompletes(m: nat, capacity: nat, devOpen: bool, before: seq<Action>) returns (acts: seq<Action>)
    requires var s := Run(m, Init(capacity, devOpen), before); s.ctl.CtlIdle? && s.running
    ensures var s := Run(m, Init(capacity, devOpen), before);
            && Next(m, s, StopExchange) == s.(running := false, ctl := CtlJoining)
            && |acts| <= Left(s) <= 4 + 7 * 256 && (forall a | a in acts :: ByWorker(a))
            && var n := Run(m, s, [StopExchange] + acts + [StopJoin]);
               && Stopped(n) && n.worker == WNone && n.devOpen == s.devOpen
               && n.stream == s.stream && n.offered == |s.stream|
               && n.polls == s.polls + (if InHand(s) then 1 else 0)
  {
    RunKeeps(m, capacity, devOpen, before);
    var s := Run(m, Init(capacity, devOpen), before);
    var t := Next(m, s, StopExchange);
    LeftBound(s);
    OthersLeaveWorkAlone(m, s, StopExchange);
    BatchKept(m, s, StopExchange);
    ControlKept(m, s, StopExchange);
    acts := WindDown(m, t);
    RunOne(m, s, StopExchange);
    RunConcat(m, s, [StopExchange], acts);
    RunOne(m, Run(m, t, acts), StopJoin);
    RunConcat(m, s, [StopExchange] + acts, [StopJoin]);
  }

  const START: seq<Action> := [StartTest, StartOpen(true), StartSetRunning, StartSpawn]

  lemma RunFour(m: nat, s: System, a: Action, b: Action, c: Action, d: Action)
    ensures Run(m, s, [a, b, c, d]) == Next(m, Next(m, Next(m, Next(m, s, a), b), c), d)
  {
    assert [a, b, c, d][..3] == [a, b, c] && [a, b, c][..2] == [a, b] && [a, b][..1] == [a];
    RunOne(m, s, a);
    assert Run(m, s, [a, b]) == Next(m, Next(m, s, a), b);
  }

  /** From every reachable stopped state the steps of `start` open the device if
      need be, raise the flag and set a worker going, and change nothing else. */
  lemma StartCompletes(m: nat, capacity: nat, devOpen: bool, before: seq<Action>)
    requires Stopped(Run(m, Init(capacity, devOpen), before))
    ensures var s := Run(m, Init(capacity, devOpen), before);
            Run(m, s, START) == s.(devOpen := true, running := true, worker := WTest)
  {
    RunKeeps(m, capacity, devOpen, before);
    RunFour(m, Run(m, Init(capacity, devOpen), before), StartTest, StartOpen(true), StartSetRunning, StartSpawn);
  }

  /** A device that cannot be opened leaves everything as it was; so do `start`
      on a running service and `stop` on a stopped one. */
  lemma RefusedCalls(m: nat, s: System)
    requires s.ctl.CtlIdle?
    ensures !s.running && !s.devOpen ==> Run(m, s, [StartTest, StartOpen(false)]) == s
    ensures s.running ==> Next(m, s, StartTest) == s
    ensures !s.running ==> Next(m, s, StopExchange) == s
  {
    assert [StartTest, StartOpen(false)][..1] == [StartTest];
    RunOne(m, s, StartTest);
  }
}
