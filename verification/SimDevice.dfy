// The simulated USB device (software/src/hal/usb/usb_device_sim.cpp): a rate
// clock decides how many frames are due, and every frame is a function of its
// number since `open`, whatever the sizes of the reads that fetched it.  The
// steady clock is a parameter of the calls that read it.
module SimDevice {
  import opened Arith
  import Bits
  import opened BusTypes

  const NS_PER_SEC: nat := 1_000_000_000

  datatype SimConfig = SimConfig(
    rate: nat,
    channelMask: nat,
    busType: BusType,
    dlc: nat,
    idBase: nat,
    extended: bool,
    fd: bool,
    seed: bv64)

  /** The field widths of the C++ struct. */
  ghost predicate WellTyped(c: SimConfig) {
    c.rate < TWO_32 && c.channelMask < TWO_32 && c.dlc < TWO_8 && c.idBase < TWO_32
  }

  /** What the constructor makes of a configuration. */
  function Clamp(c: SimConfig): (r: SimConfig)
    ensures r.rate > 0 && r.dlc <= 64 && r.channelMask > 0
    ensures c.rate > 0 && c.dlc <= 64 && c.channelMask > 0 ==> r == c
    ensures r.(rate := c.rate, dlc := c.dlc, channelMask := c.channelMask) == c
    ensures (c.rate == 0 ==> r.rate == 1) && (c.dlc > 64 ==> r.dlc == 64) && (c.channelMask == 0 ==> r.channelMask == 1)
    ensures WellTyped(c) ==> WellTyped(r)
  {
    c.(rate := if c.rate == 0 then 1 else c.rate,
       dlc := if c.dlc > MAX_PAYLOAD then MAX_PAYLOAD else c.dlc,
       channelMask := if c.channelMask == 0 then 1 else c.channelMask)
  }

  // ----- rate arithmetic -----

  /** Lines 63-66 in unsigned 64-bit arithmetic. */
  function Due(elapsed: nat, rate: nat): nat {
    ((elapsed / NS_PER_SEC * rate) % TWO_64 + (elapsed % NS_PER_SEC * rate) % TWO_64 / NS_PER_SEC) % TWO_64
  }

  lemma SplitQuotient(elapsed: nat, rate: nat)
    ensures elapsed * rate / NS_PER_SEC == elapsed / NS_PER_SEC * rate + elapsed % NS_PER_SEC * rate / NS_PER_SEC
  {
    var q, r := elapsed / NS_PER_SEC, elapsed % NS_PER_SEC;
    assert elapsed * rate == NS_PER_SEC * (q * rate) + r * rate by {
      assert elapsed == NS_PER_SEC * q + r;
      assert (NS_PER_SEC * q + r) * rate == NS_PER_SEC * q * rate + r * rate;
    }
    var k := r * rate;
    assert elapsed * rate == NS_PER_SEC * (q * rate + k / NS_PER_SEC) + k % NS_PER_SEC;
    DivModUnique(NS_PER_SEC, elapsed * rate, q * rate + k / NS_PER_SEC, k % NS_PER_SEC);
  }

  lemma RemainderProductFits(r: nat, rate: nat)
    requires r < NS_PER_SEC && rate < TWO_32
    ensures 0 <= r * rate < TWO_64
  {
    assert r * rate <= NS_PER_SEC * rate;
  }

  /** The split product is exact as long as the true count fits 64 bits, and
      only then. */
  lemma DueIsExactIffItFits(elapsed: nat, rate: nat)
    requires rate < TWO_32
    ensures Due(elapsed, rate) == (elapsed * rate / 1_000_000_000) % TWO_64
    ensures Due(elapsed, rate) == elapsed * rate / 1_000_000_000 <==> elapsed * rate / 1_000_000_000 < TWO_64
  {
    SplitQuotient(elapsed, rate);
    var a, k := elapsed / NS_PER_SEC * rate, elapsed % NS_PER_SEC * rate;
    RemainderProductFits(elapsed % NS_PER_SEC, rate);
    DivModUnique(TWO_64, k, 0, k);
    ModAbsorbs(TWO_64, a, k / NS_PER_SEC);
    assert Due(elapsed, rate) < TWO_64;
  }

  // ----- frame contents -----

  predicate BitSet(mask: nat, i: nat)
    requires i < MAX_CHANNELS
  {
    (mask / [1, 2, 4, 8, 16, 32, 64, 128][i]) % 2 == 1
  }

  /** The enabled channels below `n`, in ascending order. */
  function ChannelsBelow(mask: nat, n: nat): (cs: seq<nat>)
    requires n <= MAX_CHANNELS
    ensures |cs| <= n
  {
    if n == 0 then [] else
    ChannelsBelow(mask, n - 1) + (if BitSet(mask, n - 1) then [n - 1] else [])
  }

  /** The bit a mask test looks at is the mask's binary digit. */
  lemma BitSetIsTheDigit(mask: nat, i: nat)
    requires i < MAX_CHANNELS
    ensures BitSet(mask, i) <==> Bits.Bit(mask, i) == 1
  {
    Bits.EightBits();
    assert Bits.Pow2(0) == 1 && Bits.Pow2(1) == 2 && Bits.Pow2(2) == 4;
    assert Bits.Pow2(5) == 32 && Bits.Pow2(6) == 64 && Bits.Pow2(7) == 128;
  }

  /** The sum of 2^c over the listed channels. */
  function Weight(cs: seq<nat>): nat
    decreases |cs|
  {
    if cs == [] then 0 else Weight(cs[..|cs| - 1]) + Bits.Pow2(cs[|cs| - 1])
  }

  /** They are the channels whose binary digit in the mask is 1, each once, in
      ascending order. */
  lemma {:induction false} ChannelsAreTheSetBits(mask: nat, n: nat)
    requires n <= MAX_CHANNELS
    ensures var cs := ChannelsBelow(mask, n);
            && (forall c: nat :: c in cs <==> c < n && Bits.Bit(mask, c) == 1)
            && (forall i, j | 0 <= i < j < |cs| :: cs[i] < cs[j])
  {
    if n > 0 {
      ChannelsAreTheSetBits(mask, n - 1);
      BitSetIsTheDigit(mask, n - 1);
      var front, cs := ChannelsBelow(mask, n - 1), ChannelsBelow(mask, n);
      forall i | 0 <= i < |front| ensures front[i] < n - 1 {
        assert front[i] in front;
      }
      assert forall c: nat :: c in cs <==> c in front || (c == n - 1 && Bits.Bit(mask, n - 1) == 1);
    }
  }

  lemma {:induction false} ListedIsSet(mask: nat, n: nat, i: nat)
    requires n <= MAX_CHANNELS && i < |ChannelsBelow(mask, n)|
    ensures var c := ChannelsBelow(mask, n)[i]; c < n && Bits.Bit(mask, c) == 1
  {
    BitSetIsTheDigit(mask, n - 1);
    if i < |ChannelsBelow(mask, n - 1)| { ListedIsSet(mask, n - 1, i); }
  }

  lemma OneMoreDigit(mask: nat, n: nat)
    ensures mask % Bits.Pow2(n + 1) == mask % Bits.Pow2(n) + (if Bits.Bit(mask, n) == 1 then Bits.Pow2(n) else 0)
  {
    DivModUnique(1, mask, mask, 0);
    Bits.FieldGrowsUp(mask, 0, n);
  }

  lemma WeightOfOneMore(cs: seq<nat>, c: nat)
    ensures Weight(cs + [c]) == Weight(cs) + Bits.Pow2(c)
  {
    assert (cs + [c])[..|cs|] == cs;
  }

  /** Together they make up the low digits of the mask. */
  lemma {:induction false} ChannelsMakeUpTheMask(mask: nat, n: nat)
    requires n <= MAX_CHANNELS
    ensures Weight(ChannelsBelow(mask, n)) == mask % Bits.Pow2(n)
  {
    if n > 0 {
      var front := ChannelsBelow(mask, n - 1);
      ChannelsMakeUpTheMask(mask, n - 1);
      BitSetIsTheDigit(mask, n - 1);
      OneMoreDigit(mask, n - 1);
      WeightOfOneMore(front, n - 1);
      assert front + [] == front;
    }
  }

  /** The mask 5 enables channels 0 and 2. */
  lemma MaskFive()
    ensures ChannelsBelow(5, MAX_CHANNELS) == [0, 2]
  {
    assert ChannelsBelow(5, 1) == [0] && ChannelsBelow(5, 2) == [0];
    assert ChannelsBelow(5, 3) == [0, 2] && ChannelsBelow(5, 5) == [0, 2] && ChannelsBelow(5, 7) == [0, 2];
  }

  /** Payloads fit and some channel is enabled. */
  ghost predicate CanStream(c: SimConfig) {
    c.dlc <= MAX_PAYLOAD && |ChannelsBelow(c.channelMask, MAX_CHANNELS)| > 0
  }

  function XorShift(x: bv64): bv64 {
    var a := x ^ (x << 13);
    var b := a ^ (a >> 7);
    b ^ (b << 17)
  }

  function TopByte(x: bv64): byte {
    ((x >> 56) as bv8) as int
  }

  function PrngAfter(x: bv64, n: nat): bv64 {
    if n == 0 then x else XorShift(PrngAfter(x, n - 1))
  }

  /** The payload drawn from state `x`: `dlc` bytes, zero filled. */
  function Payload(x: bv64, dlc: nat): (d: seq<byte>)
    requires dlc <= MAX_PAYLOAD
    ensures |d| == MAX_PAYLOAD
  {
    seq(MAX_PAYLOAD, b requires 0 <= b => if b < dlc then TopByte(PrngAfter(x, b + 1)) else 0)
  }

  /** Frame number `k` since `open`, stamped at time `ts`; `x` is the
      generator state at `open`. */
  function FrameAt(c: SimConfig, x: bv64, k: nat, ts: nat): BusFrame
    requires CanStream(c)
  {
    var cs := ChannelsBelow(c.channelMask, MAX_CHANNELS);
    BusFrame(ts / 100, c.busType, cs[k % |cs|], Rx, (c.idBase + k) % TWO_32, c.extended, c.fd, c.dlc,
             Payload(PrngAfter(x, k * c.dlc), c.dlc), Good)
  }

  lemma LeftThirteen(x: bv64)
    requires x ^ (x << 13) == 0
    ensures x == 0
  {
  }

  lemma RightSeven(x: bv64)
    requires x ^ (x >> 7) == 0
    ensures x == 0
  {
  }

  lemma LeftSeventeen(x: bv64)
    requires x ^ (x << 17) == 0
    ensures x == 0
  {
  }

  lemma XorShiftNonZero(x: bv64)
    requires XorShift(x) == 0
    ensures x == 0
  {
    var a := x ^ (x << 13);
    LeftSeventeen(a ^ (a >> 7));
    RightSeven(a);
    LeftThirteen(x);
  }

  /** A non-zero seed never reaches the generator's dead state. */
  lemma {:induction false} PrngNeverZero(x: bv64, n: nat)
    requires x != 0
    ensures PrngAfter(x, n) != 0
  {
    if n > 0 {
      PrngNeverZero(x, n - 1);
      if PrngAfter(x, n) == 0 { XorShiftNonZero(PrngAfter(x, n - 1)); }
    }
  }

  lemma {:induction false} PrngSplits(x: bv64, a: nat, b: nat)
    ensures PrngAfter(x, a + b) == PrngAfter(PrngAfter(x, a), b)
  {
    if b > 0 {
      PrngSplits(x, a, b - 1);
    }
  }

  // ----- the device -----

  /** How many frames a read returns. */
  function Count(generated: nat, due: nat, maxFrames: nat): (n: nat)
    ensures n <= maxFrames
    ensures due > generated ==> generated + n == Min(generated + maxFrames, due)
    ensures due <= generated ==> n == 0
  {
    if due <= generated then 0 else if due - generated > maxFrames then maxFrames else due - generated
  }

  function Min(a: nat, b: nat): nat {
    if a <= b then a else b
  }

  class SimUsbDevice {
    const cfg: SimConfig
    var isOpen: bool
    var generated: nat
    var openedAt: nat
    var prng: bv64
    var idOffset: nat
    /** The generator state at the last `open`. */
    ghost var seedAtOpen: bv64

    ghost predicate Valid()
      reads this
    {
      && WellTyped(cfg) && cfg.rate > 0 && cfg.dlc <= MAX_PAYLOAD
      && seedAtOpen != 0 && generated < TWO_64 && At(generated)
    }

    /** The next frame to produce is number `k`. */
    ghost predicate At(k: nat)
      reads this
    {
      prng == PrngAfter(seedAtOpen, k * cfg.dlc) && idOffset == k % TWO_32
    }

    constructor (c: SimConfig)
      requires WellTyped(c)
      ensures Valid() && !isOpen && generated == 0 && cfg == Clamp(c)
      ensures seedAtOpen == prng == if c.seed != 0 then c.seed else 1
    {
      cfg := Clamp(c);
      isOpen, generated, openedAt, idOffset := false, 0, 0, 0;
      prng := if c.seed != 0 then c.seed else 1;
      seedAtOpen := if c.seed != 0 then c.seed else 1;
    }

    /** Reopening restarts the frame numbers, not the payload generator. */
    method Open(now: nat) returns (ok: bool)
      requires Valid()
      modifies this
      ensures Valid() && ok && isOpen && generated == 0 && openedAt == now
      ensures seedAtOpen == prng == old(prng)
      ensures seedAtOpen == PrngAfter(old(seedAtOpen), old(generated) * cfg.dlc)
    {
      PrngNeverZero(seedAtOpen, generated * cfg.dlc);
      openedAt := now;
      generated := 0;
      idOffset := 0;
      isOpen := true;
      seedAtOpen := prng;
      return true;
    }

    method Close()
      modifies this`isOpen
      ensures !isOpen
    {
      isOpen := false;
    }

    /** Lines 76-83. */
    method EnabledChannels() returns (channels: array<nat>, nch: nat)
      ensures fresh(channels) && channels.Length == MAX_CHANNELS && nch <= MAX_CHANNELS
      ensures channels[..nch] == ChannelsBelow(cfg.channelMask, MAX_CHANNELS)
    {
      channels := new nat[MAX_CHANNELS];
      nch := 0;
      var i := 0;
      while i < MAX_CHANNELS
        invariant i <= MAX_CHANNELS && nch <= i
        invariant channels[..nch] == ChannelsBelow(cfg.channelMask, i)
      {
        if BitSet(cfg.channelMask, i) {
          channels[nch] := i;
          nch := nch + 1;
        }
        i := i + 1;
      }
    }

    /** Lines 96-101: one payload, advancing the generator byte by byte. */
    method DrawPayload() returns (data: seq<byte>)
      requires cfg.dlc <= MAX_PAYLOAD
      modifies this`prng
      ensures data == Payload(old(prng), cfg.dlc)
      ensures prng == PrngAfter(old(prng), cfg.dlc)
    {
      data := Zeros(MAX_PAYLOAD);
      var b := 0;
      while b < cfg.dlc
        invariant 0 <= b <= cfg.dlc && |data| == MAX_PAYLOAD
        invariant prng == PrngAfter(old(prng), b)
        invariant forall j | 0 <= j < MAX_PAYLOAD ::
          data[j] == if j < b then TopByte(PrngAfter(old(prng), j + 1)) else 0
      {
        prng := XorShift(prng);
        data := data[b := TopByte(prng)];
        b := b + 1;
      }
    }

    /** Lines 87-104: frame number `k`, advancing generator and identifier. */
    method NextFrame(channels: array<nat>, nch: nat, k: nat, stamp: nat) returns (f: BusFrame)
      requires CanStream(cfg) && At(k)
      requires nch <= channels.Length && channels[..nch] == ChannelsBelow(cfg.channelMask, MAX_CHANNELS)
      modifies this`prng, this`idOffset
      ensures [f] == Batch(cfg, seedAtOpen, k, 1, stamp) && At(k + 1)
    {
      assert nch == |channels[..nch]|;
      var channel := channels[k % nch];
      assert channel == channels[..nch][k % nch];
      IdOfFrame(cfg.idBase, k);
      NextBlock(seedAtOpen, k, cfg.dlc);
      var id := (cfg.idBase + idOffset) % TWO_32;
      var data := DrawPayload();
      f := BusFrame(stamp / 100, cfg.busType, channel, Rx, id, cfg.extended, cfg.fd, cfg.dlc, data, Good);
      idOffset := (idOffset + 1) % TWO_32;
      assert f == FrameAt(cfg, seedAtOpen, k, stamp);
      OneFrameBatch(cfg, seedAtOpen, k, stamp);
    }

    /** Every frame delivered is the stream frame of its own number, and after
        the read the device has generated what is due, up to the limit. */
    method ReadFrames(out: array?<BusFrame>, maxFrames: nat, now: nat, stamp: nat) returns (n: nat)
      requires Valid() && openedAt <= now < TWO_64
      requires out != null ==> maxFrames <= out.Length
      requires CanStream(cfg)
      modifies this`generated, this`prng, this`idOffset, out
      ensures Valid()
      ensures n == if isOpen && out != null then Count(old(generated), Due(now - openedAt, cfg.rate), maxFrames) else 0
      ensures generated == old(generated) + n
      ensures out != null ==> n <= maxFrames && out[..n] == Batch(cfg, seedAtOpen, old(generated), n, stamp)
                                             && out[n..] == old(out[n..])
    {
      if !isOpen || out == null || maxFrames == 0 {
        return 0;
      }
      var due := Due(now - openedAt, cfg.rate);
      var already := generated;
      if due <= already {
        return 0;
      }
      var count := due - already;
      if count > maxFrames {
        count := maxFrames;
      }
      Produce(out, count, stamp);
      generated := generated + count;
      return count;
    }

    /** One round of the loop: frame number `generated + i` goes to out[i]. */
    method Store(out: array<BusFrame>, i: nat, channels: array<nat>, nch: nat, stamp: nat)
      requires CanStream(cfg) && At(generated + i) && i < out.Length
      requires nch <= channels.Length && channels[..nch] == ChannelsBelow(cfg.channelMask, MAX_CHANNELS)
      modifies this`prng, this`idOffset, out
      ensures At(generated + i + 1)
      ensures out[..i + 1] == old(out[..i]) + Batch(cfg, seedAtOpen, generated + i, 1, stamp)
      ensures out[i + 1..] == old(out[i + 1..])
    {
      var f := NextFrame(channels, nch, generated + i, stamp);
      out[i] := f;
      assert out[..i + 1] == out[..i] + [f];
    }

    /** Lines 76-105: the frames from number `generated` on. */
    method Produce(out: array<BusFrame>, count: nat, stamp: nat)
      requires CanStream(cfg) && At(generated) && count <= out.Length
      modifies this`prng, this`idOffset, out
      ensures At(generated + count)
      ensures out[..count] == Batch(cfg, seedAtOpen, generated, count, stamp)
      ensures out[count..] == old(out[count..])
    {
      var channels, nch := EnabledChannels();
      ghost var rest := out[..];
      var i := 0;
      while i < count
        invariant 0 <= i <= count && At(generated + i)
        invariant out[..i] == Batch(cfg, seedAtOpen, generated, i, stamp)
        invariant out[i..] == rest[i..]
        invariant channels[..nch] == ChannelsBelow(cfg.channelMask, MAX_CHANNELS)
      {
        BatchGrows(cfg, seedAtOpen, generated, i, stamp);
        Store(out, i, channels, nch, stamp);
        i := i + 1;
      }
    }
  }

  /** Frames number `k` to `k + n - 1`. */
  function Batch(c: SimConfig, x: bv64, k: nat, n: nat, stamp: nat): (fs: seq<BusFrame>)
    requires CanStream(c)
    ensures |fs| == n
  {
    seq(n, i requires 0 <= i => FrameAt(c, x, k + i, stamp))
  }

  lemma OneFrameBatch(c: SimConfig, x: bv64, k: nat, stamp: nat)
    requires CanStream(c)
    ensures Batch(c, x, k, 1, stamp) == [FrameAt(c, x, k, stamp)]
  {
  }

  lemma BatchGrows(c: SimConfig, x: bv64, k: nat, n: nat, stamp: nat)
    requires CanStream(c)
    ensures Batch(c, x, k, n + 1, stamp) == Batch(c, x, k, n, stamp) + Batch(c, x, k + n, 1, stamp)
  {
  }

  lemma IdOfFrame(base: nat, k: nat)
    ensures (base + k % TWO_32) % TWO_32 == (base + k) % TWO_32
    ensures (k % TWO_32 + 1) % TWO_32 == (k + 1) % TWO_32
  {
  }

  lemma NextBlock(x: bv64, k: nat, dlc: nat)
    ensures PrngAfter(x, (k + 1) * dlc) == PrngAfter(PrngAfter(x, k * dlc), dlc)
  {
    assert (k + 1) * dlc == k * dlc + dlc;
    PrngSplits(x, k * dlc, dlc);
  }

  // ----- sessions: any sequence of reads since open -----

  datatype Read = Read(elapsed: nat, stamp: nat, maxFrames: nat)

  /** What the successive reads of an open device return, joined together. */
  function Session(c: SimConfig, x: bv64, generated: nat, calls: seq<Read>): seq<BusFrame>
    requires CanStream(c)
    decreases |calls|
  {
    if calls == [] then [] else
    var r := calls[0];
    var n := Count(generated, Due(r.elapsed, c.rate), r.maxFrames);
    Batch(c, x, generated, n, r.stamp) + Session(c, x, generated + n, calls[1..])
  }

  function Untimed(f: BusFrame): BusFrame {
    f.(timestamp := 0)
  }

  ghost predicate IsStream(c: SimConfig, x: bv64, k: nat, frames: seq<BusFrame>)
    requires CanStream(c)
  {
    forall i | 0 <= i < |frames| :: Untimed(frames[i]) == FrameAt(c, x, k + i, 0)
  }

  lemma StreamConcat(c: SimConfig, x: bv64, k: nat, a: seq<BusFrame>, b: seq<BusFrame>)
    requires CanStream(c)
    requires IsStream(c, x, k, a) && IsStream(c, x, k + |a|, b)
    ensures IsStream(c, x, k, a + b)
  {
    forall i | 0 <= i < |a + b|
      ensures Untimed((a + b)[i]) == FrameAt(c, x, k + i, 0)
    {
      if i >= |a| {
        assert Untimed(b[i - |a|]) == FrameAt(c, x, k + |a| + (i - |a|), 0);
      }
    }
  }

  lemma BatchIsStream(c: SimConfig, x: bv64, k: nat, n: nat, stamp: nat)
    requires CanStream(c)
    ensures IsStream(c, x, k, Batch(c, x, k, n, stamp))
  {
    var b := Batch(c, x, k, n, stamp);
    forall i | 0 <= i < n
      ensures Untimed(b[i]) == FrameAt(c, x, k + i, 0)
    {
      assert b[i] == FrameAt(c, x, k + i, stamp);
    }
  }

  /** Frame by frame, a session is the stream from where it began: how the
      frames were cut into reads shows only in their time stamps. */
  lemma {:induction false} SessionIsTheStream(c: SimConfig, x: bv64, generated: nat, calls: seq<Read>)
    requires CanStream(c)
    ensures IsStream(c, x, generated, Session(c, x, generated, calls))
    decreases |calls|
  {
    if calls != [] {
      var r := calls[0];
      var n := Count(generated, Due(r.elapsed, c.rate), r.maxFrames);
      var batch, rest := Batch(c, x, generated, n, r.stamp), Session(c, x, generated + n, calls[1..]);
      assert Session(c, x, generated, calls) == batch + rest;
      SessionIsTheStream(c, x, generated + n, calls[1..]);
      BatchIsStream(c, x, generated, n, r.stamp);
      StreamConcat(c, x, generated, batch, rest);
    }
  }

  /** Two ways of reading that return the same number of frames return the
      same frames. */
  lemma ChunkingIndependent(c: SimConfig, x: bv64, generated: nat, one: seq<Read>, two: seq<Read>, k: nat)
    requires CanStream(c)
    requires k < |Session(c, x, generated, one)| && k < |Session(c, x, generated, two)|
    ensures Untimed(Session(c, x, generated, one)[k]) == Untimed(Session(c, x, generated, two)[k])
  {
    SessionIsTheStream(c, x, generated, one);
    SessionIsTheStream(c, x, generated, two);
  }

  /** However the reads were cut, the total never passes what was due at some
      read, and a read with enough room catches up completely. */
  lemma {:induction false} SessionNeverOverruns(c: SimConfig, x: bv64, generated: nat, calls: seq<Read>, bound: nat)
    requires CanStream(c)
    requires generated <= bound && forall r | r in calls :: Due(r.elapsed, c.rate) <= bound
    ensures generated + |Session(c, x, generated, calls)| <= bound
    ensures calls != [] && Due(calls[|calls| - 1].elapsed, c.rate) == bound
            && calls[|calls| - 1].maxFrames >= bound - generated
            ==> generated + |Session(c, x, generated, calls)| == bound
    decreases |calls|
  {
    if calls != [] {
      var n := Count(generated, Due(calls[0].elapsed, c.rate), calls[0].maxFrames);
      assert calls[0] in calls;
      assert forall r | r in calls[1..] :: r in calls;
      SessionNeverOverruns(c, x, generated + n, calls[1..], bound);
    }
  }

  // ----- reopening -----

  /** After `generated` frames from state `x`, the stream of the next session. */
  ghost predicate ReopenRepeats(c: SimConfig, x: bv64, generated: nat)
    requires CanStream(c)
  {
    forall k: nat, ts: nat :: FrameAt(c, PrngAfter(x, generated * c.dlc), k, ts) == FrameAt(c, x, k, ts)
  }

  /** A session repeats the one before when that one drew no payload byte. */
  lemma UnusedGeneratorRepeats(c: SimConfig, x: bv64, generated: nat)
    requires CanStream(c)
    requires generated == 0 || c.dlc == 0
    ensures ReopenRepeats(c, x, generated)
  {
    NoBytes(generated, c.dlc);
    RestoredGeneratorRepeats(c, x, generated);
  }

  lemma NoBytes(generated: nat, dlc: nat)
    requires generated == 0 || dlc == 0
    ensures generated * dlc == 0
  {
  }

  /** More generally, when the generator is back where it was. */
  lemma RestoredGeneratorRepeats(c: SimConfig, x: bv64, generated: nat)
    requires CanStream(c)
    requires PrngAfter(x, generated * c.dlc) == x
    ensures ReopenRepeats(c, x, generated)
  {
  }

  const DEFAULT_SEED: bv64 := 0x9E3779B97F4A7C15

  lemma DefaultSeedBytes()
    ensures TopByte(PrngAfter(DEFAULT_SEED, 1)) == 0xdc
    ensures TopByte(PrngAfter(PrngAfter(DEFAULT_SEED, 1), 1)) == 0x64
  {
    assert PrngAfter(DEFAULT_SEED, 1) == XorShift(DEFAULT_SEED);
    assert XorShift(DEFAULT_SEED) == 0xdc1b77ae0bf34dad;
    assert PrngAfter(0xdc1b77ae0bf34dad, 1) == XorShift(0xdc1b77ae0bf34dad);
    assert XorShift(0xdc1b77ae0bf34dad) == 0x64f0eeb9026e6076;
  }

  /** An input on which it does not: the default seed, one frame of one byte. */
  lemma ReopenDiffers(c: SimConfig)
    requires c.dlc == 1 && |ChannelsBelow(c.channelMask, MAX_CHANNELS)| > 0
    ensures FrameAt(c, DEFAULT_SEED, 0, 0).data[0] == 0xdc
    ensures FrameAt(c, PrngAfter(DEFAULT_SEED, 1 * c.dlc), 0, 0).data[0] == 0x64
    ensures !ReopenRepeats(c, DEFAULT_SEED, 1)
  {
    DefaultSeedBytes();
  }

  // ----- what the frames say -----

  /** Frame k of a session in terms of mask, number and time alone. */
  lemma FrameContents(c: SimConfig, x: bv64, k: nat, ts: nat)
    requires CanStream(c)
    ensures var f := FrameAt(c, x, k, ts);
            && f.channel < 8 && Bits.Bit(c.channelMask, f.channel) == 1
            && f.id == (c.idBase + k) % 0x1_0000_0000
            && f.timestamp == ts / 100 && f.dir == Rx && f.status == Good
            && f.busType == c.busType && f.extended == c.extended && f.fd == c.fd && f.dlc == c.dlc
  {
    ListedIsSet(c.channelMask, MAX_CHANNELS, k % |ChannelsBelow(c.channelMask, MAX_CHANNELS)|);
  }

  /** Its payload: each byte from the next state of the generator, which has
      been stepped once per byte of the k frames before; then zeros. */
  lemma FramePayload(c: SimConfig, x: bv64, k: nat, ts: nat, j: nat)
    requires CanStream(c) && j < 64
    ensures |FrameAt(c, x, k, ts).data| == 64
    ensures FrameAt(c, x, k, ts).data[j]
            == if j < c.dlc then TopByte(PrngAfter(PrngAfter(x, k * c.dlc), j + 1)) else 0
  {
    ByteDrawn(PrngAfter(x, k * c.dlc), c.dlc, j);
  }

  lemma ByteDrawn(y: bv64, dlc: nat, j: nat)
    requires dlc <= 64 && j < 64
    ensures Payload(y, dlc)[j] == if j < dlc then TopByte(PrngAfter(y, j + 1)) else 0
  {
  }

  /** Consecutive frames count up modulo 2^32. */
  lemma NextIdFollows(c: SimConfig, x: bv64, k: nat, ts: nat)
    requires CanStream(c)
    ensures FrameAt(c, x, k + 1, ts).id == (FrameAt(c, x, k, ts).id + 1) % 0x1_0000_0000
  {
    ModAbsorbs(TWO_32, c.idBase + k, 1);
  }

  /** Among as many consecutive frames as there are enabled channels, each of
      them occurs exactly once. */
  lemma ChannelsTakeTurns(c: SimConfig, x: bv64, k: nat, ts: nat, ch: nat)
    requires CanStream(c) && ch < 8 && Bits.Bit(c.channelMask, ch) == 1
    ensures var n := |ChannelsBelow(c.channelMask, MAX_CHANNELS)|;
            exists i: nat ::
              && k <= i < k + n && FrameAt(c, x, i, ts).channel == ch
              && forall j: nat | k <= j < k + n && FrameAt(c, x, j, ts).channel == ch :: j == i
  {
    var cs := ChannelsBelow(c.channelMask, MAX_CHANNELS);
    ChannelsAreTheSetBits(c.channelMask, MAX_CHANNELS);
    var at :| 0 <= at < |cs| && cs[at] == ch;
    var i := TurnOf(|cs|, at, k);
    assert FrameAt(c, x, i, ts).channel == ch;
    forall j: nat | k <= j < k + |cs| && FrameAt(c, x, j, ts).channel == ch
      ensures j == i
    {
      assert j % |cs| == at;
      if j < i { ModSeparates(j, i, |cs|); } else if i < j { ModSeparates(i, j, |cs|); }
    }
  }

  lemma TurnOf(n: nat, at: nat, k: nat) returns (i: nat)
    requires at < n
    ensures k <= i < k + n && i % n == at
  {
    var d := (at - k) % n;
    i := k + d;
    DivMod(n, at - k);
    ModOfShift(n, 0 - (at - k) / n, at);
    assert k + d == n * (0 - (at - k) / n) + at;
    DivModUnique(n, at, 0, at);
  }
}
