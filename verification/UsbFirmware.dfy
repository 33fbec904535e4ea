// The device side of the USB link codec (firmware/src/protocol/
// usb_protocol_handler.c).
module UsbFirmware {
  import opened BusTypes
  import opened UsbWire

  method PutU16(buf: array<byte>, at: nat, v: u16)
    requires at + 2 <= buf.Length
    modifies buf
    ensures buf[..] == Splice(old(buf[..]), at, U16(v))
  {
    buf[at] := v % 0x100;
    buf[at + 1] := v / 0x100 % 0x100;
  }

  method PutU32(buf: array<byte>, at: nat, v: u32)
    requires at + 4 <= buf.Length
    modifies buf
    ensures buf[..] == Splice(old(buf[..]), at, U32(v))
  {
    buf[at] := v % 0x100;
    buf[at + 1] := v / 0x100 % 0x100;
    buf[at + 2] := v / 0x1_0000 % 0x100;
    buf[at + 3] := v / 0x100_0000 % 0x100;
  }

  method HeaderFill(buf: array<byte>, kind: u8, length: u16, seqNo: u16)
    requires buf.Length >= HEADER_SIZE
    modifies buf
    ensures buf[..] == Over(old(buf[..]), HeaderBytes(kind, length, seqNo))
  {
    ghost var before := buf[..];
    PutU16(buf, 0, MAGIC);
    buf[2] := VERSION;
    buf[3] := kind;
    assert buf[..] == Over(before, U16(MAGIC) + [VERSION, kind]);
    PutU16(buf, 4, length);
    SpliceNext(before, 0, U16(MAGIC) + [VERSION, kind], U16(length));
    PutU16(buf, 6, seqNo);
    SpliceNext(before, 0, U16(MAGIC) + [VERSION, kind] + U16(length), U16(seqNo));
    PutU32(buf, 8, 0);
    SpliceNext(before, 0, U16(MAGIC) + [VERSION, kind] + U16(length) + U16(seqNo), U32(0));
  }

  /** The byte-by-byte copy loops. */
  method CopyBytes(src: array<byte>, dst: array<byte>, at: nat, n: nat)
    requires src != dst && n <= src.Length && at + n <= dst.Length
    modifies dst
    ensures dst[..] == Splice(old(dst[..]), at, src[..n])
  {
    ghost var before := dst[..];
    for i := 0 to n
      invariant dst[..] == Splice(before, at, src[..i])
    {
      dst[at + i] := src[i];
      SpliceNext(before, at, src[..i], [src[i]]);
      assert src[..i + 1] == src[..i] + [src[i]];
    }
  }

  /** The stores of an accepted command or event. */
  method WriteShort(buf: array<byte>, kind: u8, code: u16, channel: u16, param: u32,
                    payload: array?<byte>, plen: u16, seqNo: u16)
    requires plen <= CMD_PAYLOAD_MAX && 20 + plen <= buf.Length && buf != payload
    requires payload != null ==> plen <= payload.Length
    modifies buf
    ensures buf[..] == ShortImage(old(buf[..]), kind, code, channel, param, Bytes(payload, plen), plen, seqNo)
  {
    ShortInThree(buf[..], kind, code, channel, param, Bytes(payload, plen), plen, seqNo);
    HeaderFill(buf, kind, 8 + plen, seqNo);
    PutFields(buf, code, channel, param);
    PutPayload(buf, payload, plen);
  }

  method PutPayload(buf: array<byte>, payload: array?<byte>, plen: u16)
    requires 20 + plen <= buf.Length && buf != payload
    requires payload != null ==> plen <= payload.Length
    modifies buf
    ensures buf[..] == if payload != null && plen > 0 then Splice(old(buf[..]), 20, payload[..plen]) else old(buf[..])
  {
    if plen > 0 && payload != null {
      CopyBytes(payload, buf, 20, plen);
    }
  }

  method PutFields(buf: array<byte>, code: u16, channel: u16, param: u32)
    requires buf.Length >= 20
    modifies buf
    ensures buf[..] == Splice(old(buf[..]), HEADER_SIZE, Fields(code, channel, param))
  {
    ghost var before := buf[..];
    PutU16(buf, 12, code);
    PutU16(buf, 14, channel);
    SpliceNext(before, 12, U16(code), U16(channel));
    PutU32(buf, 16, param);
    SpliceNext(before, 12, U16(code) + U16(channel), U32(param));
  }

  method BuildCmd(buf: array?<byte>, cap: nat, cmd: u16, channel: u16, param: u32,
                  payload: array?<byte>, plen: u16, seqNo: u16)
    returns (total: int)
    requires buf != null ==> cap <= buf.Length && buf != payload
    requires payload != null ==> plen <= payload.Length
    modifies buf
    ensures total == if buf != null && plen <= CMD_PAYLOAD_MAX && 20 + plen <= cap then 20 + plen else -1
    ensures total != -1 ==>
              buf[..] == ShortImage(old(buf[..]), PKT_CMD, cmd, channel, param, Bytes(payload, plen), plen, seqNo)
    ensures total == -1 && buf != null ==> buf[..] == old(buf[..])
  {
    if buf == null || plen > CMD_PAYLOAD_MAX {
      return -1;
    }
    total := HEADER_SIZE + 8 + plen;
    if total > cap {
      return -1;
    }
    WriteShort(buf, PKT_CMD, cmd, channel, param, payload, plen, seqNo);
  }

  /** Events carry at most 64 payload bytes on this side. */
  method BuildEvt(buf: array?<byte>, cap: nat, evt: u16, channel: u16, param: u32,
                  payload: array?<byte>, plen: u16, seqNo: u16)
    returns (total: int)
    requires buf != null ==> cap <= buf.Length && buf != payload
    requires payload != null ==> plen <= payload.Length
    modifies buf
    ensures total == if buf != null && plen <= EVT_PAYLOAD_MAX && 20 + plen <= cap then 20 + plen else -1
    ensures total != -1 ==>
              buf[..] == ShortImage(old(buf[..]), PKT_EVT, evt, channel, param, Bytes(payload, plen), plen, seqNo)
    ensures total == -1 && buf != null ==> buf[..] == old(buf[..])
  {
    if buf == null || plen > EVT_PAYLOAD_MAX {
      return -1;
    }
    total := HEADER_SIZE + 8 + plen;
    if total > cap {
      return -1;
    }
    WriteShort(buf, PKT_EVT, evt, channel, param, payload, plen, seqNo);
  }

  method BuildData(buf: array?<byte>, cap: nat, frames: array?<byte>, count: u8, size: nat, seqNo: u16)
    returns (total: int)
    requires size > 0 && FRAMES_PER_PACKET * size < TWO_16
    requires buf != null ==> cap <= buf.Length && buf != frames
    requires frames != null && count <= FRAMES_PER_PACKET ==> count * size <= frames.Length
    modifies buf
    ensures total == if buf != null && frames != null && 1 <= count <= FRAMES_PER_PACKET
                        && HEADER_SIZE + count * size <= cap
                     then HEADER_SIZE + count * size else -1
    ensures total != -1 ==> buf[..] == Over(old(buf[..]), DataPacket(frames[..count * size], seqNo))
    ensures total == -1 && buf != null ==> buf[..] == old(buf[..])
  {
    var frameBytes := count * size;
    if buf == null || frames == null || count == 0 || count > FRAMES_PER_PACKET {
      return -1;
    }
    FrameBytesFit(size, count);
    total := HEADER_SIZE + frameBytes;
    if total > cap {
      return -1;
    }
    ghost var before := buf[..];
    HeaderFill(buf, PKT_DATA, frameBytes, seqNo);
    CopyBytes(frames, buf, HEADER_SIZE, frameBytes);
    SpliceNext(before, 0, HeaderBytes(PKT_DATA, frameBytes, seqNo), frames[..frameBytes]);
  }

  /** bt_usb_header_t, filled in place by the parser. */
  class WireHeader {
    var magic: nat
    var version: nat
    var kind: nat
    var length: nat
    var seqNo: nat
    var reserved: nat

    constructor ()
    {
      magic, version, kind, length, seqNo, reserved := 0, 0, 0, 0, 0, 0;
    }

    /** The fields are those of the first twelve bytes, acceptable or not. */
    ghost predicate Holds(b: seq<byte>)
      requires |b| >= HEADER_SIZE
      reads this
    {
      && magic == Get16(b, 0) && version == b[2] && kind == b[3]
      && length == Get16(b, 4) && seqNo == Get16(b, 6) && reserved == Get32(b, 8)
    }
  }

  /** The header struct is filled even when the packet is then refused, and is
      left alone when the input is too short to hold one.  On success the
      payload region is buf[at..at + plen]. */
  method Parse(buf: array?<byte>, len: nat, hdr: WireHeader?) returns (status: int, at: nat, plen: nat)
    requires buf != null ==> len <= buf.Length
    modifies hdr
    ensures status == if hdr != null && AcceptedHeader(Bytes(buf, len)).Some? then 0 else -1
    ensures hdr != null && buf != null && len >= HEADER_SIZE ==> hdr.Holds(buf[..len])
    ensures hdr != null && (buf == null || len < HEADER_SIZE) ==> unchanged(hdr)
    ensures status == 0 ==>
              var h := ParseHeader(buf[..len]).value;
              && (hdr.kind, hdr.length, hdr.seqNo) == (h.kind, h.length, h.seqNo)
              && at == HEADER_SIZE && plen == h.length && at + plen <= len
  {
    status, at, plen := -1, 0, 0;
    if buf == null || hdr == null || len < HEADER_SIZE {
      return;
    }
    hdr.magic := Join16(buf[0], buf[1]);
    hdr.version := buf[2];
    hdr.kind := buf[3];
    hdr.length := Join16(buf[4], buf[5]);
    hdr.seqNo := Join16(buf[6], buf[7]);
    hdr.reserved := Join32(buf[8], buf[9], buf[10], buf[11]);
    if hdr.magic != MAGIC || hdr.version != VERSION {
      return;
    }
    if hdr.length + HEADER_SIZE > len {
      return;
    }
    status, at, plen := 0, HEADER_SIZE, hdr.length;
  }

  method HandleCmd(pkt: array?<byte>, len: nat) returns (status: int)
    requires pkt != null ==> len <= pkt.Length
    ensures status == if AcceptedShort(Bytes(pkt, len), PKT_CMD).Some? then 0 else -1
  {
    var hdr := new WireHeader();
    var parsed, at, plen := Parse(pkt, len, hdr);
    if parsed != 0 || hdr.kind != PKT_CMD {
      return -1;
    }
    if plen < 8 {
      return -1;
    }
    return 0;
  }
}
