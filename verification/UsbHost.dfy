// The host side of the USB link codec (software/src/protocol/usb/
// usb_frame_codec.cpp).  Buffers may be null, as the C++ pointers may.
module UsbHost {
  import opened Arith
  import opened BusTypes
  import opened UsbWire

  method HeaderFill(buf: array?<byte>, cap: nat, kind: u8, length: u16, seqNo: u16) returns (ok: bool)
    requires buf != null ==> cap <= buf.Length
    modifies buf
    ensures ok <==> buf != null && cap >= HEADER_SIZE
    ensures ok ==> buf[..] == Over(old(buf[..]), HeaderBytes(kind, length, seqNo))
    ensures !ok && buf != null ==> buf[..] == old(buf[..])
  {
    if buf == null || cap < HEADER_SIZE {
      return false;
    }
    buf[0] := MAGIC % 0x100;
    buf[1] := MAGIC / 0x100 % 0x100;
    buf[2] := VERSION;
    buf[3] := kind;
    buf[4] := length % 0x100;
    buf[5] := length / 0x100 % 0x100;
    buf[6] := seqNo % 0x100;
    buf[7] := seqNo / 0x100 % 0x100;
    buf[8] := 0;
    buf[9] := 0;
    buf[10] := 0;
    buf[11] := 0;
    HeaderSpelledOut(kind, length, seqNo);
    assert buf[..12] == HeaderBytes(kind, length, seqNo);
    return true;
  }

  /** The eight byte stores at p = buf + 12. */
  method FieldsFill(buf: array<byte>, code: u16, channel: u16, param: u32)
    requires buf.Length >= 20
    modifies buf
    ensures buf[..] == Splice(old(buf[..]), HEADER_SIZE, Fields(code, channel, param))
  {
    buf[12] := code % 0x100;
    buf[13] := code / 0x100 % 0x100;
    buf[14] := channel % 0x100;
    buf[15] := channel / 0x100 % 0x100;
    buf[16] := param % 0x100;
    buf[17] := param / 0x100 % 0x100;
    buf[18] := param / 0x1_0000 % 0x100;
    buf[19] := param / 0x100_0000 % 0x100;
    assert buf[12..20] == Fields(code, channel, param);
  }

  /** memcpy: disjoint ranges. */
  method Copy(src: array<byte>, from: nat, dst: array<byte>, at: nat, n: nat)
    requires src != dst && from + n <= src.Length && at + n <= dst.Length
    modifies dst
    ensures dst[..] == Splice(old(dst[..]), at, src[from..from + n])
  {
    forall i | 0 <= i < n {
      dst[at + i] := src[from + i];
    }
  }

  /** The stores of an accepted packet. */
  method WriteShort(buf: array<byte>, cap: nat, kind: u8, code: u16, channel: u16, param: u32,
                    payload: array?<byte>, plen: nat, seqNo: u16)
    returns (ok: bool)
    requires plen <= CMD_PAYLOAD_MAX && 20 + plen <= cap <= buf.Length && buf != payload
    requires payload != null ==> plen <= payload.Length
    modifies buf
    ensures ok
    ensures buf[..] == ShortImage(old(buf[..]), kind, code, channel, param, Bytes(payload, plen), plen, seqNo)
  {
    ShortInThree(buf[..], kind, code, channel, param, Bytes(payload, plen), plen, seqNo);
    ok := HeaderFill(buf, cap, kind, 8 + plen, seqNo);
    FieldsFill(buf, code, channel, param);
    if plen > 0 && payload != null {
      Copy(payload, 0, buf, 20, plen);
    }
  }

  method Encode8PlusPayload(buf: array?<byte>, cap: nat, kind: u8, code: u16, channel: u16, param: u32,
                            payload: array?<byte>, plen: nat, seqNo: u16)
    returns (total: nat)
    requires buf != null ==> cap <= buf.Length && buf != payload
    requires payload != null ==> plen <= payload.Length
    modifies buf
    ensures total == if buf != null && plen <= CMD_PAYLOAD_MAX && 20 + plen <= cap then 20 + plen else 0
    ensures total > 0 ==>
              buf[..] == ShortImage(old(buf[..]), kind, code, channel, param, Bytes(payload, plen), plen, seqNo)
    ensures total == 0 && buf != null ==> buf[..] == old(buf[..])
  {
    total := 0;
    if buf == null || plen > CMD_PAYLOAD_MAX {
      return;
    }
    var needed := HEADER_SIZE + 8 + plen;
    if needed > cap {
      return;
    }
    var ok := WriteShort(buf, cap, kind, code, channel, param, payload, plen, seqNo);
    if ok {
      total := needed;
    }
  }

  method EncodeCmd(buf: array?<byte>, cap: nat, cmd: u16, channel: u16, param: u32,
                   payload: array?<byte>, plen: nat, seqNo: u16)
    returns (total: nat)
    requires buf != null ==> cap <= buf.Length && buf != payload
    requires payload != null ==> plen <= payload.Length
    modifies buf
    ensures total == if buf != null && plen <= CMD_PAYLOAD_MAX && 20 + plen <= cap then 20 + plen else 0
    ensures total > 0 ==>
              buf[..] == ShortImage(old(buf[..]), PKT_CMD, cmd, channel, param, Bytes(payload, plen), plen, seqNo)
    ensures total == 0 && buf != null ==> buf[..] == old(buf[..])
  {
    total := Encode8PlusPayload(buf, cap, PKT_CMD, cmd, channel, param, payload, plen, seqNo);
  }

  method EncodeEvt(buf: array?<byte>, cap: nat, evt: u16, channel: u16, param: u32,
                   payload: array?<byte>, plen: nat, seqNo: u16)
    returns (total: nat)
    requires buf != null ==> cap <= buf.Length && buf != payload
    requires payload != null ==> plen <= payload.Length
    modifies buf
    ensures total == if buf != null && plen <= CMD_PAYLOAD_MAX && 20 + plen <= cap then 20 + plen else 0
    ensures total > 0 ==>
              buf[..] == ShortImage(old(buf[..]), PKT_EVT, evt, channel, param, Bytes(payload, plen), plen, seqNo)
    ensures total == 0 && buf != null ==> buf[..] == old(buf[..])
  {
    total := Encode8PlusPayload(buf, cap, PKT_EVT, evt, channel, param, payload, plen, seqNo);
  }

  /** The stores of an accepted data packet. */
  method WriteData(buf: array<byte>, cap: nat, frames: array<byte>, n: u16, seqNo: u16) returns (ok: bool)
    requires HEADER_SIZE + n <= cap <= buf.Length && buf != frames && n <= frames.Length
    modifies buf
    ensures ok
    ensures buf[..] == Over(old(buf[..]), DataPacket(frames[..n], seqNo))
  {
    SpliceNext(buf[..], 0, HeaderBytes(PKT_DATA, n, seqNo), frames[..n]);
    ok := HeaderFill(buf, cap, PKT_DATA, n, seqNo);
    Copy(frames, 0, buf, HEADER_SIZE, n);
  }

  /** `frames` are `count` frames of `size` bytes each, as laid out in memory. */
  method EncodeData(buf: array?<byte>, cap: nat, frames: array?<byte>, count: nat, size: nat, seqNo: u16)
    returns (total: nat)
    requires size > 0 && FRAMES_PER_PACKET * size < TWO_16
    requires buf != null ==> cap <= buf.Length && buf != frames
    requires frames != null && count <= FRAMES_PER_PACKET ==> count * size <= frames.Length
    modifies buf
    ensures total == if buf != null && frames != null && 1 <= count <= FRAMES_PER_PACKET
                        && HEADER_SIZE + count * size <= cap
                     then HEADER_SIZE + count * size else 0
    ensures total > 0 ==> buf[..] == Over(old(buf[..]), DataPacket(frames[..count * size], seqNo))
    ensures total == 0 && buf != null ==> buf[..] == old(buf[..])
  {
    total := 0;
    if buf == null || frames == null || count == 0 || count > FRAMES_PER_PACKET {
      return;
    }
    FrameBytesFit(size, count);
    var frameBytes := count * size;
    var needed := HEADER_SIZE + frameBytes;
    if needed > cap {
      return;
    }
    var ok := WriteData(buf, cap, frames, frameBytes, seqNo);
    if ok {
      total := needed;
    }
  }

  method ParseHeader(buf: array?<byte>, len: nat) returns (h: Option<Header>)
    requires buf != null ==> len <= buf.Length
    ensures h == AcceptedHeader(Bytes(buf, len))
  {
    if buf == null || len < HEADER_SIZE {
      return None;
    }
    var magic := Join16(buf[0], buf[1]);
    var version, kind := buf[2], buf[3];
    var length := Join16(buf[4], buf[5]);
    var seqNo := Join16(buf[6], buf[7]);
    if magic != MAGIC || version != VERSION {
      return None;
    }
    if length + HEADER_SIZE > len {
      return None;
    }
    return Some(Header(kind, length, seqNo));
  }

  /** The command and event decoders, which differ in the kind they want. */
  method DecodeShort(buf: array?<byte>, len: nat, wanted: u8) returns (ok: bool, code: nat, channel: nat, param: nat)
    requires buf != null ==> len <= buf.Length
    ensures ok <==> AcceptedShort(Bytes(buf, len), wanted).Some?
    ensures ok ==> var s := ParseShort(buf[..len], wanted).value;
                   code == s.code && channel == s.channel && param == s.param
  {
    ok, code, channel, param := false, 0, 0, 0;
    if buf == null || len < HEADER_SIZE + 8 {
      return;
    }
    var header := ParseHeader(buf, len);
    if header.None? || header.value.kind != wanted {
      return;
    }
    if header.value.length < 8 || header.value.length + HEADER_SIZE > len {
      return;
    }
    ok := true;
    code := Join16(buf[12], buf[13]);
    channel := Join16(buf[14], buf[15]);
    param := Join32(buf[16], buf[17], buf[18], buf[19]);
  }

  method DecodeCmd(buf: array?<byte>, len: nat) returns (ok: bool, cmd: nat, channel: nat, param: nat)
    requires buf != null ==> len <= buf.Length
    ensures ok <==> AcceptedShort(Bytes(buf, len), PKT_CMD).Some?
    ensures ok ==> var s := ParseShort(buf[..len], PKT_CMD).value;
                   cmd == s.code && channel == s.channel && param == s.param
  {
    ok, cmd, channel, param := DecodeShort(buf, len, PKT_CMD);
  }

  method DecodeEvt(buf: array?<byte>, len: nat) returns (ok: bool, evt: nat, channel: nat, param: nat)
    requires buf != null ==> len <= buf.Length
    ensures ok <==> AcceptedShort(Bytes(buf, len), PKT_EVT).Some?
    ensures ok ==> var s := ParseShort(buf[..len], PKT_EVT).value;
                   evt == s.code && channel == s.channel && param == s.param
  {
    ok, evt, channel, param := DecodeShort(buf, len, PKT_EVT);
  }

  /** The checks of the data decoder. */
  method CheckData(buf: array<byte>, len: nat, maxFrames: nat, size: nat) returns (count: nat, seqNo: nat)
    requires size > 0 && len <= buf.Length
    ensures count > 0 <==> ParseData(buf[..len], size, maxFrames).Some?
    ensures count > 0 ==>
              var d := ParseData(buf[..len], size, maxFrames).value;
              && count == d.count <= maxFrames && seqNo == d.seqNo
              && |d.frames| == count * size && HEADER_SIZE + |d.frames| <= len
              && forall i | 0 <= i < |d.frames| :: d.frames[i] == buf[HEADER_SIZE + i]
  {
    count, seqNo := 0, 0;
    var header := ParseHeader(buf, len);
    if header.None? || header.value.kind != PKT_DATA {
      return;
    }
    if header.value.length % size != 0 {
      return;
    }
    var n := header.value.length / size;
    if n == 0 || n > maxFrames {
      return;
    }
    DivMod(size, header.value.length);
    count, seqNo := n, header.value.seqNo;
  }

  /** The frame bytes of an accepted data packet go to the start of `out`. */
  method DecodeData(buf: array?<byte>, len: nat, out: array?<byte>, maxFrames: nat, size: nat)
    returns (count: nat, seqNo: nat)
    requires size > 0
    requires buf != null ==> len <= buf.Length && buf != out
    requires out != null ==> maxFrames * size <= out.Length
    modifies out
    ensures count > 0 <==> buf != null && out != null && ParseData(buf[..len], size, maxFrames).Some?
    ensures count > 0 ==>
              var d := ParseData(buf[..len], size, maxFrames).value;
              && count == d.count && seqNo == d.seqNo
              && |d.frames| == count * size <= out.Length
              && out[..] == Over(old(out[..]), d.frames)
    ensures count == 0 && out != null ==> out[..] == old(out[..])
  {
    count, seqNo := 0, 0;
    if buf == null || out == null || maxFrames == 0 {
      return;
    }
    count, seqNo := CheckData(buf, len, maxFrames, size);
    if count > 0 {
      MulMonotone(count, maxFrames, size);
      Copy(buf, HEADER_SIZE, out, 0, count * size);
    }
  }
}
