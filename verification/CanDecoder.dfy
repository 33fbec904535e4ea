// Signal extraction from a payload (software/src/protocol/can/can_decoder.cpp):
// the bit-by-bit loops against the payload read as one integer.
module CanDecoder {
  import opened Arith
  import opened Bits
  import opened BusTypes
  import opened DbcModel

  /** The byte-sized fields of a parsed signal. */
  ghost predicate WellTyped<N>(s: Signal<N>) {
    s.startBit < TWO_8 && s.length < TWO_8
  }

  function Width(length: nat): nat {
    if length > 64 then 64 else length
  }

  /** How many bits from `start` on lie within `dlc` bytes. */
  function InFrame(start: nat, len: nat, dlc: nat): (k: nat)
    ensures k <= len
  {
    if start >= 8 * dlc then 0 else if start + len <= 8 * dlc then len else 8 * dlc - start
  }

  /** Intel order: bits `start` up of the payload as a little-endian number. */
  function IntelValue(payload: seq<byte>, start: nat, len: nat): nat {
    Field(LittleEndian(payload), start, len)
  }

  /** Motorola order: the bits that lie in the frame, counted from the most
      significant bit of byte 0, of the payload as a big-endian number. */
  function MotorolaValue(payload: seq<byte>, start: nat, len: nat): nat {
    var k := InFrame(start, len, |payload|);
    if k == 0 then 0 else Field(BigEndian(payload), 8 * |payload| - start - k, k)
  }

  /** What the extraction yields, in closed form; `None` is a null pointer. */
  function RawValue<N>(s: Signal<N>, data: Option<seq<byte>>, dlc: nat): nat
    requires data.Some? ==> dlc <= |data.value|
  {
    match data
    case None => 0
    case Some(d) =>
      if s.littleEndian then IntelValue(d[..dlc], s.startBit, Width(s.length))
      else MotorolaValue(d[..dlc], s.startBit, Width(s.length))
  }

  // ----- the operators of the loops on 64-bit words -----

  /** `(byte >> b) & 1`. */
  function ByteBitAt(x: byte, b: nat): nat
    requires b < 8
  {
    Bit(x, b)
  }

  /** `v | (1 << i)`. */
  function SetBit(v: nat, i: nat): nat {
    if Bit(v, i) == 1 then v else v + Pow2(i)
  }

  /** `(v << 1) | bit`. */
  function ShiftIn(v: nat, bit: nat): nat {
    2 * v % TWO_64 + bit
  }

  lemma Word32()
    ensures Pow2(32) == TWO_32
  {
    EightBits();
    Pow2Adds(8, 8);
    Pow2Adds(16, 16);
  }

  lemma Word64()
    ensures Pow2(64) == TWO_64 && 2 * Pow2(63) == TWO_64
  {
    Word32();
    Pow2Adds(32, 32);
  }

  lemma FieldBound(n: nat, low: nat, len: nat)
    ensures Field(n, low, len) < Pow2(len)
  {
  }

  lemma IntelStep(n: nat, start: nat, i: nat, v: nat)
    requires v == Field(n, start, i)
    ensures Bit(v, i) == 0
    ensures Field(n, start, i + 1) == if Bit(n, start + i) == 1 then SetBit(v, i) else v
  {
    FieldBound(n, start, i);
    Zero(v, i);
    FieldGrowsUp(n, start, i);
  }

  /** Lines 17-29: stopping at the end of the frame leaves the bits beyond it 0. */
  method ExtractIntel(data: seq<byte>, dlc: nat, start: nat, len: nat) returns (v: nat)
    requires dlc <= |data|
    ensures v == IntelValue(data[..dlc], start, len)
  {
    v := 0;
    ghost var n := LittleEndian(data[..dlc]);
    var i := 0;
    while i < len
      invariant 0 <= i <= len && v == Field(n, start, i)
    {
      var bit := start + i;
      if bit / 8 >= dlc {
        LittleEndianBound(data[..dlc]);
        Pow2Monotone(8 * dlc, start + i);
        FieldBelow(n, start, i, len - i);
        FieldBelow(n, start, i, 0);
        return;
      }
      LittleEndianBit(data[..dlc], bit);
      IntelStep(n, start, i, v);
      if ByteBitAt(data[bit / 8], bit % 8) == 1 {
        v := SetBit(v, i);
      }
      i := i + 1;
    }
  }

  lemma MotorolaStep(n: nat, low: nat, i: nat, v: nat)
    requires low > 0 && i < 64 && v == Field(n, low, i)
    ensures ShiftIn(v, Bit(n, low - 1)) == Field(n, low - 1, i + 1)
  {
    FieldGrowsDown(n, low, i);
    FieldBound(n, low, i);
    Word64();
    Pow2Monotone(i, 63);
    DivModUnique(TWO_64, 2 * v, 0, 2 * v);
  }

  /** Lines 30-43: stopping at the end of the frame leaves the bits read so far,
      not shifted up. */
  method ExtractMotorola(data: seq<byte>, dlc: nat, start: nat, len: nat) returns (v: nat)
    requires dlc <= |data| && len <= 64
    ensures v == MotorolaValue(data[..dlc], start, len)
  {
    v := 0;
    ghost var n := BigEndian(data[..dlc]);
    var pos, i := start, 0;
    while i < len
      invariant 0 <= i <= len && pos == start + i
      invariant i == 0 ==> v == 0
      invariant i > 0 ==> pos <= 8 * dlc && v == Field(n, 8 * dlc - pos, i)
    {
      if pos / 8 >= dlc {
        return;
      }
      BigEndianBit(data[..dlc], 8 * dlc - pos - 1);
      if i == 0 { EmptyField(n, 8 * dlc - pos); }
      MotorolaStep(n, 8 * dlc - pos, i, v);
      ByteFromTheTop(dlc, pos);
      v := ShiftIn(v, ByteBitAt(data[pos / 8], 7 - pos % 8));
      pos := pos + 1;
      i := i + 1;
    }
  }

  lemma EmptyField(n: nat, low: nat)
    ensures Field(n, low, 0) == 0
  {
  }

  lemma ByteFromTheTop(dlc: nat, pos: nat)
    requires pos < 8 * dlc
    ensures var j := 8 * dlc - pos - 1; dlc - 1 - j / 8 == pos / 8 && j % 8 == 7 - pos % 8
  {
  }

  method ExtractRaw<N>(s: Signal<N>, data: Option<seq<byte>>, dlc: nat) returns (v: nat)
    requires WellTyped(s) && (data.Some? ==> dlc <= |data.value|)
    ensures v == RawValue(s, data, dlc)
    ensures data.None? || s.length == 0 ==> v == 0
    ensures v < Pow2(Width(s.length)) <= TWO_64
  {
    RawBound(s, data, dlc);
    if data.None? {
      return 0;
    }
    var len := if s.length > 64 then 64 else s.length;
    if len == 0 {
      return 0;
    }
    if s.littleEndian {
      v := ExtractIntel(data.value, dlc, s.startBit, len);
    } else {
      v := ExtractMotorola(data.value, dlc, s.startBit, len);
    }
  }

  lemma RawBound<N>(s: Signal<N>, data: Option<seq<byte>>, dlc: nat)
    requires data.Some? ==> dlc <= |data.value|
    ensures RawValue(s, data, dlc) < Pow2(Width(s.length)) <= TWO_64
    ensures Width(s.length) == 0 ==> RawValue(s, data, dlc) == 0
  {
    var w := Width(s.length);
    Word64();
    Pow2Monotone(w, 64);
    if data.Some? && w == 0 { assert Pow2(0) == 1; }
    if data.Some? && !s.littleEndian {
      Pow2Monotone(InFrame(s.startBit, w, dlc), w);
    }
  }

  // ----- short frames -----

  /** A signal that lies within the frame has its whole field read. */
  lemma FittingMotorola(payload: seq<byte>, start: nat, len: nat)
    requires start + len <= 8 * |payload|
    ensures MotorolaValue(payload, start, len) == Field(BigEndian(payload), 8 * |payload| - start - len, len)
  {
    if len == 0 { EmptyField(BigEndian(payload), 8 * |payload| - start); }
  }

  /** Bytes that make every addressable bit position part of the frame. */
  const PAD: nat := 40

  lemma IntelPadding(payload: seq<byte>, start: nat, len: nat)
    ensures IntelValue(payload + Zeros(PAD), start, len) == IntelValue(payload, start, len)
  {
    LittleEndianPadding(payload, PAD);
  }

  lemma ShrOfShifted(n: nat, a: nat, b: nat)
    ensures b <= a ==> Shr(n * Pow2(a), b) == n * Pow2(a - b)
    ensures b > a ==> Shr(n * Pow2(a), b) == Shr(n, b - a)
  {
    if b <= a {
      Pow2Adds(a - b, b);
      MulAssoc(n, Pow2(a - b), Pow2(b));
      DivModUnique(Pow2(b), n * Pow2(a), n * Pow2(a - b), 0);
    } else {
      Shift(n * Pow2(a), a, b - a);
      DivModUnique(Pow2(a), n * Pow2(a), n, 0);
    }
  }

  lemma ModOfShifted(n: nat, k: nat, j: nat)
    ensures n * Pow2(j) % Pow2(k + j) == n % Pow2(k) * Pow2(j)
  {
    Pow2Adds(k, j);
    ModScaled(n, Pow2(k), Pow2(j));
  }

  lemma ShrZero(n: nat)
    ensures Shr(n, 0) == n
  {
    DivModUnique(1, n, n, 0);
  }

  lemma FieldAboveZeros(n: nat, zeros: nat, low: nat, len: nat)
    ensures Field(n * Pow2(zeros), low + zeros, len) == Field(n, low, len)
  {
    ShrOfShifted(n, zeros, low + zeros);
    if low == 0 { ShrZero(n); }
  }

  lemma FieldAcrossZeros(n: nat, zeros: nat, k: nat, j: nat)
    requires j <= zeros
    ensures Field(n * Pow2(zeros), zeros - j, k + j) == Field(n, 0, k) * Pow2(j)
  {
    ShrOfShifted(n, zeros, zeros - j);
    ModOfShifted(n, k, j);
    ShrZero(n);
  }

  lemma FieldWithinZeros(n: nat, zeros: nat, low: nat, len: nat)
    requires low + len <= zeros
    ensures Field(n * Pow2(zeros), low, len) == 0
  {
    ShrOfShifted(n, zeros, low);
    var j := zeros - low - len;
    Pow2Adds(j, len);
    MulAssoc(n, Pow2(j), Pow2(len));
    DivModUnique(Pow2(len), n * Pow2(zeros - low), n * Pow2(j), 0);
  }

  /** Read from the zero-padded payload, a Motorola signal is its in-frame part
      followed by a zero for every bit beyond the frame. */
  lemma PaddedMotorola(payload: seq<byte>, start: nat, len: nat)
    requires start < TWO_8 && len <= 64
    ensures var k := InFrame(start, len, |payload|);
            MotorolaValue(payload + Zeros(PAD), start, len) == MotorolaValue(payload, start, len) * Pow2(len - k)
  {
    var n, m, k := BigEndian(payload), |payload|, InFrame(start, len, |payload|);
    BigEndianPadding(payload, PAD);
    FittingMotorola(payload + Zeros(PAD), start, len);
    PaddedField(n, m, start, len, k);
    if start + len <= 8 * m { FittingMotorola(payload, start, len); }
  }

  lemma PaddedField(n: nat, m: nat, start: nat, len: nat, k: nat)
    requires start < TWO_8 && len <= 64 && k == InFrame(start, len, m)
    ensures Field(n * Pow2(8 * PAD), 8 * (m + PAD) - start - len, len) ==
            if k == 0 then 0 else Field(n, 8 * m - start - k, k) * Pow2(len - k)
  {
    if start + len <= 8 * m {
      FieldAboveZeros(n, 8 * PAD, 8 * m - start - len, len);
    } else if start < 8 * m {
      FieldAcrossZeros(n, 8 * PAD, k, len - k);
    } else {
      FieldWithinZeros(n, 8 * PAD, 8 * (m + PAD) - start - len, len);
    }
  }

  /** The header promises that bits beyond the frame read as 0.  Intel signals
      keep that promise; a Motorola signal keeps it exactly when it lies within
      the frame or its in-frame bits are all 0. */
  lemma BeyondFrameReadsZeroIff<N>(s: Signal<N>, d: seq<byte>, dlc: nat)
    requires WellTyped(s) && dlc <= |d|
    ensures var w := Width(s.length);
            RawValue(s, Some(d), dlc) == RawValue(s, Some(d[..dlc] + Zeros(PAD)), dlc + PAD)
            <==> s.littleEndian || s.startBit + w <= 8 * dlc || MotorolaValue(d[..dlc], s.startBit, w) == 0
  {
    var w, payload := Width(s.length), d[..dlc];
    var padded := payload + Zeros(PAD);
    assert padded[..dlc + PAD] == padded;
    if s.littleEndian {
      IntelPadding(payload, s.startBit, w);
    } else {
      var k := InFrame(s.startBit, w, dlc);
      PaddedMotorola(payload, s.startBit, w);
      if k < w {
        assert Pow2(w - k) == 2 * Pow2(w - k - 1);
        ScaledEqualIffZero(MotorolaValue(payload, s.startBit, w), Pow2(w - k));
      } else {
        assert Pow2(w - k) == 1;
      }
    }
  }

  /** The promise as a matter of geometry: which signals read every payload of
      `dlc` bytes as if it were followed by zeros. */
  ghost predicate ReadsAsPadded<N>(s: Signal<N>, dlc: nat) {
    forall d: seq<byte> | |d| == dlc :: RawValue(s, Some(d), dlc) == RawValue(s, Some(d + Zeros(PAD)), dlc + PAD)
  }

  function Ones(n: nat): (d: seq<byte>)
    ensures |d| == n
  {
    seq(n, _ => 255)
  }

  lemma OnesBit(j: nat)
    requires j < 8
    ensures Bit(255, j) == 1
  {
    EightBits();
    var p, q := Pow2(j), Pow2(8 - j);
    Pow2Adds(j, 8 - j);
    assert q == 2 * Pow2(7 - j);
    MulDistributes(p, q, -1);
    DivModUnique(p, 255, q - 1, p - 1);
    DivModUnique(2, q - 1, Pow2(7 - j) - 1, 1);
  }

  lemma EvenIfZeroField(n: nat, low: nat, len: nat)
    requires len >= 1 && Field(n, low, len) == 0
    ensures Bit(n, low) == 0
  {
    var m := Shr(n, low);
    var h := Pow2(len - 1);
    DivMod(Pow2(len), m);
    MulAssoc(2, h, m / Pow2(len));
    DivModUnique(2, m, h * (m / Pow2(len)), 0);
  }

  /** Every in-frame bit of an all-ones payload is 1. */
  lemma OnesAreNotZero(dlc: nat, start: nat, len: nat)
    requires start < 8 * dlc && len >= 1
    ensures MotorolaValue(Ones(dlc), start, len) != 0
  {
    var k := InFrame(start, len, dlc);
    var low := 8 * dlc - start - k;
    BigEndianBit(Ones(dlc), low);
    OnesBit(low % 8);
    if Field(BigEndian(Ones(dlc)), low, k) == 0 { EvenIfZeroField(BigEndian(Ones(dlc)), low, k); }
  }

  /** The header's promise holds for all payloads exactly of Intel signals and
      of Motorola signals that lie within the frame or wholly beyond it; for any
      other signal the all-ones payload breaks it. */
  lemma ReadsAsPaddedIff<N>(s: Signal<N>, dlc: nat)
    requires WellTyped(s)
    ensures ReadsAsPadded(s, dlc) <==>
            var w := Width(s.length);
            s.littleEndian || s.startBit + w <= 8 * dlc || s.startBit >= 8 * dlc || w == 0
  {
    var w := Width(s.length);
    if s.littleEndian || s.startBit + w <= 8 * dlc || s.startBit >= 8 * dlc || w == 0 {
      forall d: seq<byte> | |d| == dlc
        ensures RawValue(s, Some(d), dlc) == RawValue(s, Some(d + Zeros(PAD)), dlc + PAD)
      {
        PaddedRead(s, d, dlc);
      }
    } else {
      var d := Ones(dlc);
      PaddedRead(s, d, dlc);
      OnesAreNotZero(dlc, s.startBit, w);
    }
  }

  lemma PaddedRead<N>(s: Signal<N>, d: seq<byte>, dlc: nat)
    requires WellTyped(s) && |d| == dlc
    ensures var w := Width(s.length);
            RawValue(s, Some(d), dlc) == RawValue(s, Some(d + Zeros(PAD)), dlc + PAD)
            <==> s.littleEndian || s.startBit + w <= 8 * dlc || MotorolaValue(d, s.startBit, w) == 0
  {
    BeyondFrameReadsZeroIff(s, d, dlc);
    assert d[..dlc] == d;
  }

  /** One such input: 8 bits from bit 4 of a one-byte frame FF read as 0F; with
      zeros beyond the frame they would read as F0. */
  lemma ShortMotorolaFrame<N>(s: Signal<N>)
    requires !s.littleEndian && s.startBit == 4 && s.length == 8
    ensures RawValue(s, Some([255]), 1) == 0x0F && RawValue(s, Some([255] + Zeros(PAD)), 1 + PAD) == 0xF0
  {
    EightBits();
    var d: seq<byte> := [255];
    assert d[..1] == d && d[..0] == [] && (d + Zeros(PAD))[..1 + PAD] == d + Zeros(PAD);
    assert BigEndian(d) == 255;
    assert MotorolaValue(d, 4, 8) == Shr(255, 0) % 16;
    ShrZero(255);
    PaddedMotorola(d, 4, 8);
  }

  lemma ScaledEqualIffZero(x: nat, f: nat)
    requires f >= 2
    ensures x * f == x <==> x == 0
  {
    if x > 0 { ScaleBound(1, f, x); }
  }

  /** No payload bit outside the signal, in or beyond the frame, influences it. */
  lemma OnlyItsOwnBits<N>(s: Signal<N>, d: seq<byte>, e: seq<byte>, dlc: nat)
    requires WellTyped(s) && dlc <= |d| && dlc <= |e|
    requires var w := Width(s.length);
             if s.littleEndian then
               SameBits(LittleEndian(d[..dlc]), LittleEndian(e[..dlc]), s.startBit, w)
             else
               var k := InFrame(s.startBit, w, dlc);
               k > 0 ==> SameBits(BigEndian(d[..dlc]), BigEndian(e[..dlc]), 8 * dlc - s.startBit - k, k)
    ensures RawValue(s, Some(d), dlc) == RawValue(s, Some(e), dlc)
  {
    var w := Width(s.length);
    if s.littleEndian {
      FieldIsItsBits(LittleEndian(d[..dlc]), LittleEndian(e[..dlc]), s.startBit, w);
    } else {
      var k := InFrame(s.startBit, w, dlc);
      if k > 0 {
        FieldIsItsBits(BigEndian(d[..dlc]), BigEndian(e[..dlc]), 8 * dlc - s.startBit - k, k);
      }
    }
  }

  // ----- two's complement -----

  /** `static_cast<int64_t>`. */
  function AsInt64(x: nat): int
    requires x < TWO_64
  {
    if x < TWO_64 / 2 then x else x - TWO_64
  }

  /** Lines 47-56; the mask `~((1 << length) - 1)` is 2^64 - 2^length. */
  function SignExtend(raw: nat, length: nat): nat {
    Word64();
    if length == 0 || length >= 64 || Bit(raw, length - 1) == 0 then raw else
    Pow2Monotone(length, 63);
    raw % Pow2(length) + (TWO_64 - Pow2(length))
  }

  /** The value of a `length`-bit two's complement field. */
  function SignedField(raw: nat, length: nat): int
    requires 1 <= length
  {
    if raw < Pow2(length - 1) then raw else raw - Pow2(length)
  }

  lemma TopBit(raw: nat, length: nat)
    requires 1 <= length && raw < Pow2(length)
    ensures Bit(raw, length - 1) == 1 <==> raw >= Pow2(length - 1)
  {
    var h := Pow2(length - 1);
    if raw < h {
      DivModUnique(h, raw, 0, raw);
    } else {
      DivModUnique(h, raw, 1, raw - h);
    }
  }

  /** Sign extension, reread as a signed word, is the signed field. */
  lemma SignExtendIsSigned(raw: nat, length: nat)
    requires 1 <= length <= 64 && raw < Pow2(length)
    ensures SignExtend(raw, length) < TWO_64
    ensures AsInt64(SignExtend(raw, length)) == SignedField(raw, length)
  {
    Word64();
    TopBit(raw, length);
    if length < 64 {
      Pow2Monotone(length, 63);
      DivModUnique(Pow2(length), raw, 0, raw);
    }
  }

  // ----- whole frames -----

  datatype SignalValue = SignalValue(messageName: string, signalName: string, raw: nat, physical: real)

  function Scaled(s: Signal<real>, v: int): real {
    v as real * s.factor + s.offset
  }

  /** The 64-bit word reread in the signal's signedness. */
  function Reread(s: Signal<real>, raw: nat): int
    requires raw < TWO_64
  {
    if s.isSigned then AsInt64(raw) else raw
  }

  /** `raw_to_physical`, over the reals. */
  function Physical(s: Signal<real>, raw: nat): real
    requires raw < TWO_64
  {
    Scaled(s, Reread(s, raw))
  }

  function RawOf(s: Signal<real>, frame: BusFrame): (raw: nat)
    requires WellTyped(s) && frame.dlc <= |frame.data|
    ensures raw < TWO_64
  {
    RawBound(s, Some(frame.data), frame.dlc);
    var raw := RawValue(s, Some(frame.data), frame.dlc);
    if s.isSigned && 1 <= s.length <= 64 then SignExtendIsSigned(raw, s.length); SignExtend(raw, s.length)
    else raw
  }

  /** Rereading and cutting to 64 bits gives the word back. */
  lemma RawIsTheWord(s: Signal<real>, raw: nat)
    requires raw < TWO_64
    ensures Reread(s, raw) % TWO_64 == raw
  {
    if Reread(s, raw) < 0 {
      DivModUnique(TWO_64, raw - TWO_64, -1, raw);
    } else {
      DivModUnique(TWO_64, raw, 0, raw);
    }
  }

  /** One value per signal, in order. */
  ghost predicate Decodes(msg: DbcMessage<real>, frame: BusFrame, n: nat, out: seq<SignalValue>)
    requires n <= |msg.signals| && frame.dlc <= |frame.data|
    requires forall s | s in msg.signals :: WellTyped(s)
  {
    && |out| == n
    && (forall i | 0 <= i < n :: var raw := RawOf(msg.signals[i], frame);
         out[i] == SignalValue(msg.name, msg.signals[i].name, raw, Physical(msg.signals[i], raw)))
  }

  /** `std::vector<SignalValue>`. */
  class ValueList {
    var values: seq<SignalValue>
    constructor () { values := []; }
  }

  method DecodeFrame(msg: DbcMessage<real>, frame: BusFrame, out: ValueList?) returns (ok: bool)
    requires frame.dlc <= |frame.data| && forall s | s in msg.signals :: WellTyped(s)
    modifies out
    ensures ok <==> out != null
    ensures ok ==> Decodes(msg, frame, |msg.signals|, out.values)
  {
    if out == null {
      return false;
    }
    out.values := [];
    var i := 0;
    while i < |msg.signals|
      invariant 0 <= i <= |msg.signals| && Decodes(msg, frame, i, out.values)
    {
      var s := msg.signals[i];
      assert s in msg.signals;
      var raw := ExtractRaw(s, Some(frame.data), frame.dlc);
      RawBound(s, Some(frame.data), frame.dlc);
      if s.isSigned {
        if 1 <= s.length <= 64 { SignExtendIsSigned(raw, s.length); }
        raw := SignExtend(raw, s.length);
      }
      out.values := out.values + [SignalValue(msg.name, s.name, raw, Physical(s, raw))];
      i := i + 1;
    }
    return true;
  }

  /** The mathematical value of a signal that lies within the frame. */
  function FieldValue(s: Signal<real>, payload: seq<byte>): int
    requires 1 <= s.length <= 64 && s.startBit + s.length <= 8 * |payload|
  {
    var raw := if s.littleEndian then Field(LittleEndian(payload), s.startBit, s.length)
               else Field(BigEndian(payload), 8 * |payload| - s.startBit - s.length, s.length);
    if s.isSigned then SignedField(raw, s.length) else raw
  }

  lemma FittingRaw(s: Signal<real>, frame: BusFrame)
    requires WellTyped(s) && frame.dlc <= |frame.data|
    requires 1 <= s.length <= 64 && s.startBit + s.length <= 8 * frame.dlc
    ensures Reread(s, RawOf(s, frame)) == FieldValue(s, frame.data[..frame.dlc])
  {
    FittingMotorola(frame.data[..frame.dlc], s.startBit, s.length);
    RawBound(s, Some(frame.data), frame.dlc);
    if s.isSigned { SignExtendIsSigned(RawValue(s, Some(frame.data), frame.dlc), s.length); }
  }

  /** End to end: a fitting signal's physical value is its field v, as a signed
      or unsigned number, times the factor plus the offset. */
  lemma DecodedValue(msg: DbcMessage<real>, frame: BusFrame, out: seq<SignalValue>, i: nat, s: Signal<real>, v: int)
    requires frame.dlc <= |frame.data| && forall s | s in msg.signals :: WellTyped(s)
    requires Decodes(msg, frame, |msg.signals|, out) && i < |msg.signals| && s == msg.signals[i]
    requires 1 <= s.length <= 64 && s.startBit + s.length <= 8 * frame.dlc
    requires v == FieldValue(s, frame.data[..frame.dlc])
    ensures out[i].messageName == msg.name && out[i].signalName == s.name
    ensures out[i].physical == v as real * s.factor + s.offset
  {
    DecodedField(msg, frame, out, i);
    WrittenOut(out[i].physical, s, v);
  }

  /** Its raw value is the field modulo 2^64. */
  lemma DecodedRaw(msg: DbcMessage<real>, frame: BusFrame, out: seq<SignalValue>, i: nat, s: Signal<real>, v: int)
    requires frame.dlc <= |frame.data| && forall s | s in msg.signals :: WellTyped(s)
    requires Decodes(msg, frame, |msg.signals|, out) && i < |msg.signals| && s == msg.signals[i]
    requires 1 <= s.length <= 64 && s.startBit + s.length <= 8 * frame.dlc
    requires v == FieldValue(s, frame.data[..frame.dlc])
    ensures out[i].raw == v % 0x1_0000_0000_0000_0000
  {
    FittingRaw(s, frame);
    RawIsTheWord(s, RawOf(s, frame));
  }

  lemma WrittenOut(x: real, s: Signal<real>, v: int)
    requires x == Scaled(s, v)
    ensures x == v as real * s.factor + s.offset
  {
  }

  lemma ScalingLaw(s: Signal<real>, v: int)
    ensures Scaled(s, v) == v as real * s.factor + s.offset
    ensures Scaled(s, 0) == s.offset && Scaled(s, v + 1) == Scaled(s, v) + s.factor
  {
  }

  /** EngineTemp of the repository's example: factor 1, offset -40, raw 0x96. */
  lemma EngineTemperature(s: Signal<real>)
    requires s.factor == 1.0 && s.offset == -40.0 && !s.isSigned
    ensures Physical(s, 0x96) == 110.0
  {
  }

  lemma DecodedField(msg: DbcMessage<real>, frame: BusFrame, out: seq<SignalValue>, i: nat)
    requires frame.dlc <= |frame.data| && forall s | s in msg.signals :: WellTyped(s)
    requires Decodes(msg, frame, |msg.signals|, out) && i < |msg.signals|
    requires var s := msg.signals[i]; 1 <= s.length <= 64 && s.startBit + s.length <= 8 * frame.dlc
    ensures var s := msg.signals[i];
            && out[i].messageName == msg.name && out[i].signalName == s.name
            && out[i].physical == Scaled(s, FieldValue(s, frame.data[..frame.dlc]))
  {
    FittingRaw(msg.signals[i], frame);
  }
}
