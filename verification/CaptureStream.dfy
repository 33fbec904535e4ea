// From generator to consumer: the capture system with the simulated device
// behind it.  The device's clock decides how many frames a read returns, and
// what a read returns is the device's own stream.
module CaptureStream {
  import opened BusTypes
  import opened Capture
  import opened CaptureLife
  import opened SimDevice
  import Ring = SpscRing

  /** The generator's part of the device: frames generated since `open`, and
      the payload generator's state at that moment. */
  datatype Device = Device(generated: nat, seed: bv64)

  datatype Live = Live(sys: System, dev: Device)

  /** Any step of the capture system but a read, or a read at some time. */
  datatype LiveAction = Do(a: Action) | Read(elapsed: nat, stamp: nat)

  /** What a read returns (SimUsbDevice.ReadFrames); the device is open then. */
  function ReadBatch(c: SimConfig, d: Device, elapsed: nat, stamp: nat): (fs: seq<BusFrame>)
    requires CanStream(c)
    ensures |fs| <= BATCH_FRAMES
  {
    Batch(c, d.seed, d.generated, Count(d.generated, Due(elapsed, c.rate), BATCH_FRAMES), stamp)
  }

  /** A step that is never enabled. */
  const STUTTER: Action := WorkerPush(Ring.PushReturn)

  /** The step of the capture system: reads come from the device, and opening
      it always succeeds. */
  function Underlying(c: SimConfig, l: Live, la: LiveAction): Action
    requires CanStream(c)
  {
    match la
    case Read(elapsed, stamp) => WorkerRead(ReadBatch(c, l.dev, elapsed, stamp))
    case Do(a) => if a.WorkerRead? || a == StartOpen(false) then STUTTER else a
  }

  /** `open` restarts the frame numbers and keeps the payload generator. */
  function DeviceNext(m: nat, c: SimConfig, l: Live, a: Action): Device
    requires CanStream(c)
  {
    if !Enabled(m, l.sys, a) then l.dev
    else if a.WorkerRead? then l.dev.(generated := l.dev.generated + |a.frames|)
    else if a.StartOpen? && !l.sys.devOpen then Device(0, PrngAfter(l.dev.seed, l.dev.generated * c.dlc))
    else l.dev
  }

  function LiveNext(m: nat, c: SimConfig, l: Live, la: LiveAction): Live
    requires CanStream(c)
  {
    var a := Underlying(c, l, la);
    Live(Next(m, l.sys, a), DeviceNext(m, c, l, a))
  }

  function LiveRun(m: nat, c: SimConfig, l: Live, las: seq<LiveAction>): Live
    requires CanStream(c)
    decreases |las|
  {
    if las == [] then l else LiveNext(m, c, LiveRun(m, c, l, las[..|las| - 1]), las[|las| - 1])
  }

  /** The run of the capture system underneath. */
  function Steps(m: nat, c: SimConfig, l: Live, las: seq<LiveAction>): (acts: seq<Action>)
    requires CanStream(c)
    decreases |las|
  {
    if las == [] then [] else
    var front := las[..|las| - 1];
    Steps(m, c, l, front) + [Underlying(c, LiveRun(m, c, l, front), las[|las| - 1])]
  }

  lemma {:induction false} LiveRunIsARun(m: nat, c: SimConfig, l: Live, las: seq<LiveAction>)
    requires CanStream(c)
    ensures LiveRun(m, c, l, las).sys == Run(m, l.sys, Steps(m, c, l, las))
    decreases |las|
  {
    if las != [] {
      var acts := Steps(m, c, l, las);
      LiveRunIsARun(m, c, l, las[..|las| - 1]);
      assert acts[..|acts| - 1] == Steps(m, c, l, las[..|las| - 1]);
    }
  }

  /** The device as it will be read: a closed one is opened first. */
  function Opened(c: SimConfig, devOpen: bool, d: Device): Device {
    if devOpen then d else Device(0, PrngAfter(d.seed, d.generated * c.dlc))
  }

  /** What the worker was handed is the device's stream from where it stood,
      and the device's own counter accounts for all of it. */
  ghost predicate Handed(c: SimConfig, from: Device, l: Live)
    requires CanStream(c)
  {
    if l.sys.devOpen then
      && l.dev == Device(from.generated + |l.sys.stream|, from.seed)
      && IsStream(c, from.seed, from.generated, l.sys.stream)
    else
      && l.sys.stream == [] && Opened(c, false, l.dev) == from
      && l.sys.worker.WNone? && !l.sys.ctl.CtlOpened? && !l.sys.ctl.CtlSpawning?
  }

  lemma ReadHanded(m: nat, c: SimConfig, from: Device, l: Live, elapsed: nat, stamp: nat)
    requires CanStream(c) && Handed(c, from, l)
    ensures Handed(c, from, LiveNext(m, c, l, LiveAction.Read(elapsed, stamp)))
  {
    var frames := ReadBatch(c, l.dev, elapsed, stamp);
    if Enabled(m, l.sys, WorkerRead(frames)) {
      BatchIsStream(c, l.dev.seed, l.dev.generated, |frames|, stamp);
      StreamConcat(c, from.seed, from.generated, l.sys.stream, frames);
    }
  }

  lemma OtherStepHanded(m: nat, c: SimConfig, from: Device, l: Live, a: Action)
    requires CanStream(c) && Handed(c, from, l) && ControlInv(l.sys)
    ensures Handed(c, from, LiveNext(m, c, l, Do(a)))
  {
    SystemKeepsStream(m, l.sys, Underlying(c, l, Do(a)));
  }

  /** Only reads extend the stream, only opening opens, and nothing moves before
      the device is open. */
  lemma SystemKeepsStream(m: nat, s: System, a: Action)
    requires ControlInv(s) && !a.WorkerRead? && a != StartOpen(false)
    ensures var n := Next(m, s, a);
            && n.stream == s.stream
            && (s.devOpen ==> n.devOpen)
            && (n.devOpen ==> s.devOpen || (a.StartOpen? && Enabled(m, s, a)))
            && (!n.devOpen && s.worker.WNone? && !s.ctl.CtlOpened? && !s.ctl.CtlSpawning?
                ==> n.worker.WNone? && !n.ctl.CtlOpened? && !n.ctl.CtlSpawning?)
  {
  }

  /** Initially the controller is idle; the device may be open already. */
  function LiveInit(capacity: nat, devOpen: bool, d: Device): Live {
    Live(Init(capacity, devOpen), d)
  }

  lemma {:induction false} RunHanded(m: nat, c: SimConfig, capacity: nat, devOpen: bool, d: Device,
                                     las: seq<LiveAction>)
    requires CanStream(c)
    ensures Handed(c, Opened(c, devOpen, d), LiveRun(m, c, LiveInit(capacity, devOpen, d), las))
    ensures ControlInv(LiveRun(m, c, LiveInit(capacity, devOpen, d), las).sys)
    decreases |las|
  {
    if las != [] {
      var from, l := Opened(c, devOpen, d), LiveRun(m, c, LiveInit(capacity, devOpen, d), las[..|las| - 1]);
      RunHanded(m, c, capacity, devOpen, d, las[..|las| - 1]);
      ControlKept(m, l.sys, Underlying(c, l, las[|las| - 1]));
      match las[|las| - 1]
      case Read(elapsed, stamp) => ReadHanded(m, c, from, l, elapsed, stamp);
      case Do(a) => OtherStepHanded(m, c, from, l, a);
    }
  }

  /** Every consumed frame is the generator's frame number `from + at[j]`. */
  ghost predicate Numbered(c: SimConfig, from: Device, popped: seq<BusFrame>, at: seq<nat>, n: nat)
    requires CanStream(c)
  {
    && |at| == |popped| && Increasing(at) && (forall j | 0 <= j < |at| :: at[j] < n)
    && (forall j | 0 <= j < |at| :: Untimed(popped[j]) == FrameAt(c, from.seed, from.generated + at[j], 0))
  }

  lemma EmbeddedFramesAreNumbered(c: SimConfig, from: Device, popped: seq<BusFrame>, stream: seq<BusFrame>,
                                 at: seq<nat>)
    requires CanStream(c) && IsStream(c, from.seed, from.generated, stream) && Embeds(popped, stream, at)
    ensures Numbered(c, from, popped, at, |stream|)
  {
    forall j | 0 <= j < |at|
      ensures Untimed(popped[j]) == FrameAt(c, from.seed, from.generated + at[j], 0)
    {
      assert popped[j] == stream[at[j]];
    }
  }

  lemma PrefixIsStream(c: SimConfig, x: bv64, k: nat, part: seq<BusFrame>, whole: seq<BusFrame>)
    requires CanStream(c) && IsStream(c, x, k, whole) && part <= whole
    ensures IsStream(c, x, k, part)
  {
  }

  /** Conservation and order from generator to consumer, over every run of
      controller, worker, device and consumer and every tolerated counter width:
      once stopped, generated = offered = pushed + dropped and pushed = popped +
      held; the consumer sees frames of the generator with strictly increasing
      numbers, and exactly the first ones when nothing was dropped. */
  lemma GeneratorToConsumer(m: nat, c: SimConfig, capacity: nat, devOpen: bool, d: Device, las: seq<LiveAction>)
    requires CanStream(c)
    requires var l := LiveInit(capacity, devOpen, d);
             m == 0 || (l.sys.ring.cap < m
                        && (m % l.sys.ring.cap == 0 || |LiveRun(m, c, l, las).sys.ring.accepted| < m))
    ensures var from := Opened(c, devOpen, d);
            var l := LiveRun(m, c, LiveInit(capacity, devOpen, d), las);
            var s := l.sys;
            && (s.devOpen ==> l.dev.generated == from.generated + |s.stream|)
            && (Stopped(s) && s.devOpen ==> l.dev.generated - from.generated == s.offered == s.pushed + s.ring.dropped)
            && (Stopped(s) ==> s.pushed == |s.ring.popped| + Ring.Distance(m, s.ring.tail, s.ring.head))
            && (exists at :: Numbered(c, from, s.ring.popped, at, |s.stream|))
            && (s.ring.dropped == 0 ==> IsStream(c, from.seed, from.generated, s.ring.popped))
  {
    var from, l := Opened(c, devOpen, d), LiveRun(m, c, LiveInit(capacity, devOpen, d), las);
    LiveRunIsARun(m, c, LiveInit(capacity, devOpen, d), las);
    CaptureSafety(m, capacity, devOpen, Steps(m, c, LiveInit(capacity, devOpen, d), las));
    RunHanded(m, c, capacity, devOpen, d, las);
    assert IsStream(c, from.seed, from.generated, l.sys.stream);
    var at :| Embeds(l.sys.ring.popped, l.sys.stream, at);
    EmbeddedFramesAreNumbered(c, from, l.sys.ring.popped, l.sys.stream, at);
    if l.sys.ring.dropped == 0 {
      PrefixIsStream(c, from.seed, from.generated, l.sys.ring.popped, l.sys.stream);
    }
  }
}
