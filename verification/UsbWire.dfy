// The USB link's wire format (shared/include/bus/usb_protocol.h), stated once:
// what a packet is as a byte sequence, and what a byte sequence means.  The
// host and firmware codecs are each proved against it.
module UsbWire {
  import opened Arith
  import opened BusTypes

  const MAGIC: nat := 0x5442
  const VERSION: nat := 1
  const HEADER_SIZE: nat := 12
  const FRAMES_PER_PACKET: nat := 16
  const CMD_PAYLOAD_MAX: nat := 256
  const EVT_PAYLOAD_MAX: nat := 64

  const PKT_DATA: nat := 1
  const PKT_CMD: nat := 2
  const PKT_EVT: nat := 3

  type u8 = x: nat | x < 256
  type u16 = x: nat | x < TWO_16
  type u32 = x: nat | x < TWO_32

  function U16(v: nat): (b: seq<byte>)
    ensures |b| == 2
  {
    [v % 0x100, v / 0x100 % 0x100]
  }

  function U32(v: nat): (b: seq<byte>)
    ensures |b| == 4
  {
    [v % 0x100, v / 0x100 % 0x100, v / 0x1_0000 % 0x100, v / 0x100_0000 % 0x100]
  }

  function Join16(b0: nat, b1: nat): nat {
    b0 + 0x100 * b1
  }

  function Join32(b0: nat, b1: nat, b2: nat, b3: nat): nat {
    b0 + 0x100 * b1 + 0x1_0000 * b2 + 0x100_0000 * b3
  }

  function Get16(b: seq<byte>, at: nat): (v: nat)
    requires at + 2 <= |b|
    ensures v < TWO_16
  {
    Join16(b[at], b[at + 1])
  }

  function Get32(b: seq<byte>, at: nat): (v: nat)
    requires at + 4 <= |b|
    ensures v < TWO_32
  {
    Join32(b[at], b[at + 1], b[at + 2], b[at + 3])
  }

  // ----- packets as bytes -----

  function HeaderBytes(kind: byte, length: nat, seqNo: nat): (b: seq<byte>)
    ensures |b| == HEADER_SIZE
  {
    U16(MAGIC) + [VERSION, kind] + U16(length) + U16(seqNo) + U32(0)
  }

  /** The header byte by byte, least significant first. */
  lemma HeaderSpelledOut(kind: byte, length: nat, seqNo: nat)
    ensures HeaderBytes(kind, length, seqNo) ==
            [0x42, 0x54, 1, kind, length % 0x100, length / 0x100 % 0x100,
             seqNo % 0x100, seqNo / 0x100 % 0x100, 0, 0, 0, 0]
  {
  }

  /** The eight fixed bytes of a command or event. */
  function Fields(code: nat, channel: nat, param: nat): (b: seq<byte>)
    ensures |b| == 8
  {
    U16(code) + U16(channel) + U32(param)
  }

  function ShortPacket(kind: byte, code: nat, channel: nat, param: nat, payload: seq<byte>, seqNo: nat): seq<byte> {
    HeaderBytes(kind, 8 + |payload|, seqNo) + Fields(code, channel, param) + payload
  }

  /** Frames are `size` bytes each, copied verbatim. */
  function DataPacket(frames: seq<byte>, seqNo: nat): seq<byte> {
    HeaderBytes(PKT_DATA, |frames|, seqNo) + frames
  }

  /** A buffer that held `before`, after `bytes` were written from `at` on. */
  function Splice(before: seq<byte>, at: nat, bytes: seq<byte>): (b: seq<byte>)
    requires at + |bytes| <= |before|
    ensures |b| == |before|
    ensures forall i | 0 <= i < |b| :: b[i] == if at <= i < at + |bytes| then bytes[i - at] else before[i]
  {
    seq(|before|, i requires 0 <= i < |before| => if at <= i < at + |bytes| then bytes[i - at] else before[i])
  }

  /** A buffer that held `before`, after a packet was written at its start. */
  function Over(before: seq<byte>, packet: seq<byte>): (b: seq<byte>)
    requires |packet| <= |before|
  {
    Splice(before, 0, packet)
  }

  /** Adjacent stores are one store. */
  lemma SpliceNext(before: seq<byte>, at: nat, bytes: seq<byte>, more: seq<byte>)
    requires at + |bytes| + |more| <= |before|
    ensures Splice(Splice(before, at, bytes), at + |bytes|, more) == Splice(before, at, bytes + more)
  {
  }

  /** Storing what a buffer already holds changes nothing. */
  lemma SpliceOwn(before: seq<byte>, bytes: seq<byte>, n: nat)
    requires |bytes| + n <= |before|
    ensures Over(before, bytes + before[|bytes|..|bytes| + n]) == Over(before, bytes)
  {
  }

  /** The payload bytes that end up in a packet: a null payload leaves the
      buffer's own bytes in place. */
  function Sent(before: seq<byte>, payload: Option<seq<byte>>, length: nat): (p: seq<byte>)
    requires payload.Some? ==> |payload.value| == length
    requires 20 + length <= |before|
    ensures |p| == length
  {
    match payload
    case None => before[20..20 + length]
    case Some(p) => p
  }

  /** What an 8-byte-plus-payload encoder leaves in its buffer. */
  function ShortImage(before: seq<byte>, kind: byte, code: nat, channel: nat, param: nat,
                      payload: Option<seq<byte>>, length: nat, seqNo: nat): seq<byte>
    requires payload.Some? ==> |payload.value| == length
    requires 20 + length <= |before|
  {
    Over(before, ShortPacket(kind, code, channel, param, Sent(before, payload, length), seqNo))
  }

  /** A packet written in three stores, the last one skipped when there is no
      payload to copy. */
  lemma ShortInThree(before: seq<byte>, kind: byte, code: nat, channel: nat, param: nat,
                     payload: Option<seq<byte>>, length: nat, seqNo: nat)
    requires payload.Some? ==> |payload.value| == length
    requires 20 + length <= |before|
    ensures var b := Splice(Over(before, HeaderBytes(kind, 8 + length, seqNo)), 12, Fields(code, channel, param));
            ShortImage(before, kind, code, channel, param, payload, length, seqNo) ==
            if payload.Some? && length > 0 then Splice(b, 20, payload.value) else b
  {
    StoresInThree(before, HeaderBytes(kind, 8 + length, seqNo), Fields(code, channel, param), payload, length);
  }

  lemma StoresInThree(before: seq<byte>, header: seq<byte>, fields: seq<byte>, payload: Option<seq<byte>>, length: nat)
    requires payload.Some? ==> |payload.value| == length
    requires |header| == 12 && |fields| == 8 && 20 + length <= |before|
    ensures var b := Splice(Over(before, header), 12, fields);
            Over(before, header + fields + Sent(before, payload, length)) ==
            if payload.Some? && length > 0 then Splice(b, 20, payload.value) else b
  {
    SpliceNext(before, 0, header, fields);
    match payload
    case Some(p) =>
      SpliceNext(before, 0, header + fields, p);
      if length == 0 {
        assert header + fields + p == header + fields;
      }
    case None =>
      SpliceOwn(before, header + fields, length);
  }

  // ----- bytes as packets -----

  datatype Header = Header(kind: nat, length: nat, seqNo: nat)

  function ParseHeader(b: seq<byte>): Option<Header> {
    if |b| < HEADER_SIZE || Get16(b, 0) != MAGIC || b[2] != VERSION || Get16(b, 4) + HEADER_SIZE > |b| then None
    else Some(Header(b[3], Get16(b, 4), Get16(b, 6)))
  }

  datatype Short = Short(code: nat, channel: nat, param: nat, payload: seq<byte>)

  /** A command (or event) packet of the given kind. */
  function ParseShort(b: seq<byte>, kind: nat): Option<Short> {
    match ParseHeader(b)
    case None => None
    case Some(h) =>
      if h.kind != kind || h.length < 8 then None
      else Some(Short(Get16(b, 12), Get16(b, 14), Get32(b, 16), b[20..HEADER_SIZE + h.length]))
  }

  datatype Data = Data(count: nat, frames: seq<byte>, seqNo: nat)

  function ParseData(b: seq<byte>, size: nat, maxFrames: nat): Option<Data>
    requires size > 0
  {
    match ParseHeader(b)
    case None => None
    case Some(h) =>
      if h.kind != PKT_DATA || h.length % size != 0 || h.length / size == 0 || h.length / size > maxFrames then None
      else Some(Data(h.length / size, b[HEADER_SIZE..HEADER_SIZE + h.length], h.seqNo))
  }

  /** The bytes a pointer-and-length argument stands for; null stands for none. */
  ghost function Bytes(a: array?<byte>, n: nat): (b: Option<seq<byte>>)
    requires a != null ==> n <= a.Length
    reads a
    ensures b.Some? ==> |b.value| == n
  {
    if a == null then None else Some(a[..n])
  }

  function AcceptedShort(b: Option<seq<byte>>, kind: nat): Option<Short> {
    if b.None? then None else ParseShort(b.value, kind)
  }

  function AcceptedHeader(b: Option<seq<byte>>): Option<Header> {
    if b.None? then None else ParseHeader(b.value)
  }

  // ----- the two directions -----

  lemma Get16Of(v: nat, b: seq<byte>, at: nat)
    requires v < TWO_16 && at + 2 <= |b| && b[at..at + 2] == U16(v)
    ensures Get16(b, at) == v
  {
    assert b[at] == b[at..at + 2][0] && b[at + 1] == b[at..at + 2][1];
  }

  lemma Join32Of(v: nat)
    requires v < TWO_32
    ensures Join32(v % 0x100, v / 0x100 % 0x100, v / 0x1_0000 % 0x100, v / 0x100_0000 % 0x100) == v
  {
    var w := v / 0x100;
    var x := w / 0x100;
    assert v / 0x1_0000 == x;
    assert v / 0x100_0000 == x / 0x100;
  }

  lemma Get32Of(v: nat, b: seq<byte>, at: nat)
    requires v < TWO_32 && at + 4 <= |b| && b[at..at + 4] == U32(v)
    ensures Get32(b, at) == v
  {
    var c := b[at..at + 4];
    assert b[at] == c[0] && b[at + 1] == c[1] && b[at + 2] == c[2] && b[at + 3] == c[3];
    Join32Of(v);
  }

  lemma U16OfGet(b: seq<byte>, at: nat)
    requires at + 2 <= |b|
    ensures U16(Get16(b, at)) == b[at..at + 2]
  {
  }

  lemma HeaderSlices(kind: byte, length: nat, seqNo: nat, rest: seq<byte>)
    ensures var b := HeaderBytes(kind, length, seqNo) + rest;
            && b[0..2] == U16(MAGIC) && b[2] == VERSION && b[3] == kind
            && b[4..6] == U16(length) && b[6..8] == U16(seqNo) && b[8..12] == U32(0) && b[12..] == rest
  {
  }

  /** A header is read back, whatever follows, if the announced bytes are there. */
  lemma HeaderRoundTrip(kind: byte, length: nat, seqNo: nat, rest: seq<byte>)
    requires length < TWO_16 && seqNo < TWO_16 && length <= |rest|
    ensures ParseHeader(HeaderBytes(kind, length, seqNo) + rest) == Some(Header(kind, length, seqNo))
  {
    var b := HeaderBytes(kind, length, seqNo) + rest;
    HeaderSlices(kind, length, seqNo, rest);
    Get16Of(MAGIC, b, 0);
    Get16Of(length, b, 4);
    Get16Of(seqNo, b, 6);
  }

  /** Commands and events come back field by field and byte by byte, regardless
      of bytes after the packet. */
  lemma ShortRoundTrip(kind: byte, code: nat, channel: nat, param: nat, payload: seq<byte>, seqNo: nat,
                       trailing: seq<byte>)
    requires code < TWO_16 && channel < TWO_16 && param < TWO_32 && seqNo < TWO_16 && |payload| + 8 < TWO_16
    ensures var b := ShortPacket(kind, code, channel, param, payload, seqNo) + trailing;
            && ParseShort(b, kind) == Some(Short(code, channel, param, payload))
            && ParseHeader(b) == Some(Header(kind, 8 + |payload|, seqNo))
  {
    var b := ShortPacket(kind, code, channel, param, payload, seqNo) + trailing;
    var rest := Fields(code, channel, param) + payload + trailing;
    assert b == HeaderBytes(kind, 8 + |payload|, seqNo) + rest;
    HeaderRoundTrip(kind, 8 + |payload|, seqNo, rest);
    assert b[12..] == rest;
    assert b[12..14] == U16(code) && b[14..16] == U16(channel) && b[16..20] == U32(param);
    Get16Of(code, b, 12);
    Get16Of(channel, b, 14);
    Get32Of(param, b, 16);
    assert b[20..20 + |payload|] == payload;
  }

  /** So do 1 to 16 frames of any size that fits the length field. */
  lemma DataRoundTrip(size: nat, count: nat, frames: seq<byte>, seqNo: nat, trailing: seq<byte>, maxFrames: nat)
    requires size > 0 && FRAMES_PER_PACKET * size < TWO_16 && 1 <= count <= FRAMES_PER_PACKET && count <= maxFrames
    requires |frames| == count * size && seqNo < TWO_16
    ensures ParseData(DataPacket(frames, seqNo) + trailing, size, maxFrames) == Some(Data(count, frames, seqNo))
  {
    var b := DataPacket(frames, seqNo) + trailing;
    assert b == HeaderBytes(PKT_DATA, |frames|, seqNo) + (frames + trailing);
    FrameBytesFit(size, count);
    HeaderRoundTrip(PKT_DATA, |frames|, seqNo, frames + trailing);
    assert b[HEADER_SIZE..HEADER_SIZE + |frames|] == frames;
    DivModUnique(size, |frames|, count, 0);
  }

  lemma FrameBytesFit(size: nat, count: nat)
    requires FRAMES_PER_PACKET * size < TWO_16 && count <= FRAMES_PER_PACKET
    ensures count * size < TWO_16
  {
    MulMonotone(count, FRAMES_PER_PACKET, size);
  }

  /** Re-encoding an accepted data packet reproduces its bytes exactly when its
      reserved bytes are zero. */
  lemma DataReencodesIffReservedZero(b: seq<byte>, size: nat, maxFrames: nat)
    requires size > 0 && ParseData(b, size, maxFrames).Some?
    ensures var d := ParseData(b, size, maxFrames).value;
            && |d.frames| == d.count * size && 1 <= d.count <= maxFrames
            && (DataPacket(d.frames, d.seqNo) == b[..HEADER_SIZE + |d.frames|] <==> b[8..12] == U32(0))
  {
    var d, h := ParseData(b, size, maxFrames).value, ParseHeader(b).value;
    assert h.length == d.count * size + h.length % size;
    var used := b[..HEADER_SIZE + h.length];
    HeaderIsItsBytes(b);
    assert used == used[..12] + d.frames;
    assert used[..12] == b[..12];
    var packet := DataPacket(d.frames, d.seqNo);
    assert packet[..12] == HeaderBytes(PKT_DATA, h.length, h.seqNo) && packet[12..] == d.frames;
    if b[8..12] != U32(0) {
      assert packet[8..12] == U32(0) && used[8..12] == b[8..12];
    }
  }

  /** The twelve bytes of an accepted header are those of its fields, up to the
      reserved ones. */
  lemma HeaderIsItsBytes(b: seq<byte>)
    requires ParseHeader(b).Some?
    ensures var h := ParseHeader(b).value;
            && h.kind < 256 && b[..8] == HeaderBytes(h.kind, h.length, h.seqNo)[..8]
            && (b[..12] == HeaderBytes(h.kind, h.length, h.seqNo) <==> b[8..12] == U32(0))
  {
    var h := ParseHeader(b).value;
    var c := HeaderBytes(h.kind, h.length, h.seqNo);
    U16OfGet(b, 0);
    U16OfGet(b, 4);
    U16OfGet(b, 6);
    assert b[..8] == b[0..2] + [b[2], b[3]] + b[4..6] + b[6..8];
    assert c[..8] == U16(MAGIC) + [VERSION, h.kind] + U16(h.length) + U16(h.seqNo);
    assert b[..12] == b[..8] + b[8..12];
    assert c == c[..8] + U32(0);
    assert c[8..12] == U32(0);
    assert b[..12][8..12] == b[8..12];
  }

  // ----- the format byte by byte -----

  /** A command or event packet: 'B', 'T', version 1, kind 2 or 3, length and
      sequence number, four zeros, code, channel and parameter, each low byte
      first, then the payload. */
  lemma ShortSpelledOut(kind: byte, code: nat, channel: nat, param: nat, payload: seq<byte>, seqNo: nat)
    ensures ShortPacket(kind, code, channel, param, payload, seqNo) ==
            [0x42, 0x54, 1, kind, (8 + |payload|) % 0x100, (8 + |payload|) / 0x100 % 0x100,
             seqNo % 0x100, seqNo / 0x100 % 0x100, 0, 0, 0, 0,
             code % 0x100, code / 0x100 % 0x100, channel % 0x100, channel / 0x100 % 0x100,
             param % 0x100, param / 0x100 % 0x100, param / 0x1_0000 % 0x100, param / 0x100_0000 % 0x100] + payload
  {
    HeaderSpelledOut(kind, 8 + |payload|, seqNo);
  }

  lemma DataSpelledOut(frames: seq<byte>, seqNo: nat)
    ensures DataPacket(frames, seqNo) ==
            [0x42, 0x54, 1, 1, |frames| % 0x100, |frames| / 0x100 % 0x100,
             seqNo % 0x100, seqNo / 0x100 % 0x100, 0, 0, 0, 0] + frames
  {
    HeaderSpelledOut(1, |frames|, seqNo);
  }

  /** The kinds and limits of the protocol header. */
  lemma ProtocolNumbers()
    ensures PKT_DATA == 1 && PKT_CMD == 2 && PKT_EVT == 3
    ensures FRAMES_PER_PACKET == 16 && CMD_PAYLOAD_MAX == 256 && EVT_PAYLOAD_MAX == 64 && HEADER_SIZE == 12
  {
  }
}
