// The two USB codecs side by side: same bytes, same verdicts, and what one
// side writes the other side reads.  Each method runs the real operations of
// both sides and states what a link between them relies on.
module UsbAgreement {
  import opened BusTypes
  import opened UsbWire
  import Host = UsbHost
  import Device = UsbFirmware

  /** Command encoder and command builder are one function. */
  method SameCommands(host: array<byte>, device: array<byte>, cap: nat, cmd: u16, channel: u16, param: u32,
                      payload: array?<byte>, plen: u16, seqNo: u16)
    returns (written: nat, built: int)
    requires host != device && payload !in {host, device} && host[..] == device[..] && cap <= host.Length
    requires payload != null ==> plen <= payload.Length
    modifies host, device
    ensures host[..] == device[..]
    ensures if written > 0 then built == written else built == -1
  {
    assert host.Length == |host[..]| == |device[..]| == device.Length;
    written := Host.EncodeCmd(host, cap, cmd, channel, param, payload, plen, seqNo);
    built := Device.BuildCmd(device, cap, cmd, channel, param, payload, plen, seqNo);
  }

  /** So are the event encoders, except between the two payload limits: there
      the host writes a packet that the device refuses to build. */
  method SameEvents(host: array<byte>, device: array<byte>, cap: nat, evt: u16, channel: u16, param: u32,
                    payload: array?<byte>, plen: u16, seqNo: u16)
    returns (written: nat, built: int)
    requires host != device && payload !in {host, device} && host[..] == device[..] && cap <= host.Length
    requires payload != null ==> plen <= payload.Length
    modifies host, device
    ensures var alike := !(EVT_PAYLOAD_MAX < plen <= CMD_PAYLOAD_MAX && 20 + plen <= cap);
            && (alike ==> host[..] == device[..])
            && (alike <==> if written > 0 then built == written else built == -1)
            && (!alike ==> written == 20 + plen && built == -1 && device[..] == old(device[..]))
  {
    assert host.Length == |host[..]| == |device[..]| == device.Length;
    written := Host.EncodeEvt(host, cap, evt, channel, param, payload, plen, seqNo);
    built := Device.BuildEvt(device, cap, evt, channel, param, payload, plen, seqNo);
  }

  method SameData(host: array<byte>, device: array<byte>, cap: nat, frames: array?<byte>, count: u8, size: nat,
                  seqNo: u16)
    returns (written: nat, built: int)
    requires host != device && frames !in {host, device} && host[..] == device[..] && cap <= host.Length
    requires size > 0 && FRAMES_PER_PACKET * size < TWO_16
    requires frames != null && count <= FRAMES_PER_PACKET ==> count * size <= frames.Length
    modifies host, device
    ensures host[..] == device[..]
    ensures if written > 0 then built == written else built == -1
  {
    assert host.Length == |host[..]| == |device[..]| == device.Length;
    written := Host.EncodeData(host, cap, frames, count, size, seqNo);
    built := Device.BuildData(device, cap, frames, count, size, seqNo);
  }

  /** For every byte sequence the two header parsers give the same verdict and
      the same fields, and the device takes a command exactly when the host's
      decoder does. */
  method SameVerdicts(buf: array?<byte>, len: nat)
    returns (h: Option<Header>, status: int, decoded: bool, handled: int, hdr: Device.WireHeader)
    requires buf != null ==> len <= buf.Length
    ensures h.Some? <==> status == 0
    ensures h.Some? ==> (hdr.kind, hdr.length, hdr.seqNo) == (h.value.kind, h.value.length, h.value.seqNo)
    ensures decoded <==> handled == 0
    ensures decoded ==> h.Some? && h.value.kind == PKT_CMD
  {
    h := Host.ParseHeader(buf, len);
    hdr := new Device.WireHeader();
    var at, plen;
    status, at, plen := Device.Parse(buf, len, hdr);
    var cmd, channel, param;
    decoded, cmd, channel, param := Host.DecodeCmd(buf, len);
    handled := Device.HandleCmd(buf, len);
  }

  lemma OverIsPacketThenRest(before: seq<byte>, packet: seq<byte>, len: nat)
    requires |packet| <= len <= |before|
    ensures Over(before, packet)[..len] == packet + before[|packet|..len]
  {
  }

  /** A command the host encodes is handled by the device and read back in
      full, even when the buffer handed over is longer than the packet. */
  method CommandReachesDevice(buf: array<byte>, cap: nat, cmd: u16, channel: u16, param: u32,
                              payload: array?<byte>, plen: nat, seqNo: u16, len: nat)
    returns (total: nat, handled: int)
    requires cap <= buf.Length && buf != payload && len <= buf.Length
    requires if payload == null then plen == 0 else plen <= payload.Length
    modifies buf
    ensures total > 0 <==> plen <= CMD_PAYLOAD_MAX && 20 + plen <= cap
    ensures total > 0 && total <= len ==>
              && handled == 0
              && ParseHeader(buf[..len]) == Some(Header(PKT_CMD, 8 + plen, seqNo))
              && ParseShort(buf[..len], PKT_CMD) ==
                 Some(Short(cmd, channel, param, if payload == null then [] else payload[..plen]))
  {
    ghost var before := buf[..];
    ghost var body := if payload == null then [] else payload[..plen];
    total := Host.EncodeCmd(buf, cap, cmd, channel, param, payload, plen, seqNo);
    if total > 0 && total <= len {
      assert Sent(before, Bytes(payload, plen), plen) == body;
      ShortLength(PKT_CMD, cmd, channel, param, body, seqNo);
      OverIsPacketThenRest(before, ShortPacket(PKT_CMD, cmd, channel, param, body, seqNo), len);
      ShortRoundTrip(PKT_CMD, cmd, channel, param, body, seqNo, before[total..len]);
    }
    handled := Device.HandleCmd(buf, len);
  }

  /** The header the host writes, as the device's parser leaves it in its
      struct. */
  method HeaderReachesDevice(buf: array<byte>, cap: nat, kind: u8, length: u16, seqNo: u16, len: nat)
    returns (ok: bool, status: int, hdr: Device.WireHeader)
    requires cap <= buf.Length && HEADER_SIZE <= len <= buf.Length
    modifies buf
    ensures ok <==> cap >= HEADER_SIZE
    ensures fresh(hdr)
    ensures ok ==>
              && (hdr.magic, hdr.version, hdr.kind) == (0x5442, 1, kind)
              && (hdr.length, hdr.seqNo, hdr.reserved) == (length, seqNo, 0)
              && (status == 0 <==> 12 + length <= len)
  {
    ghost var before := buf[..];
    ok := Host.HeaderFill(buf, cap, kind, length, seqNo);
    hdr := new Device.WireHeader();
    var at, plen;
    status, at, plen := Device.Parse(buf, len, hdr);
    if ok {
      HeaderFields(before, kind, length, seqNo, len);
    }
  }

  lemma HeaderFields(before: seq<byte>, kind: byte, length: nat, seqNo: nat, len: nat)
    requires length < TWO_16 && seqNo < TWO_16 && HEADER_SIZE <= len <= |before|
    ensures var b := Over(before, HeaderBytes(kind, length, seqNo))[..len];
            && Get16(b, 0) == 0x5442 && b[2] == 1 && b[3] == kind && Get16(b, 4) == length
            && Get16(b, 6) == seqNo && Get32(b, 8) == 0
  {
    var rest := before[HEADER_SIZE..len];
    var b := HeaderBytes(kind, length, seqNo) + rest;
    OverIsPacketThenRest(before, HeaderBytes(kind, length, seqNo), len);
    HeaderSlices(kind, length, seqNo, rest);
    Get16Of(0x5442, b, 0);
    Get16Of(length, b, 4);
    Get16Of(seqNo, b, 6);
    Get32Of(0, b, 8);
  }

  lemma ShortLength(kind: byte, code: nat, channel: nat, param: nat, payload: seq<byte>, seqNo: nat)
    ensures |ShortPacket(kind, code, channel, param, payload, seqNo)| == 20 + |payload|
  {
  }

  /** An event the device builds is decoded by the host. */
  method EventReachesHost(buf: array<byte>, cap: nat, evt: u16, channel: u16, param: u32,
                          payload: array?<byte>, plen: u16, seqNo: u16, len: nat)
    returns (total: int, ok: bool, gotEvt: nat, gotChannel: nat, gotParam: nat)
    requires cap <= buf.Length && buf != payload && len <= buf.Length
    requires if payload == null then plen == 0 else plen <= payload.Length
    modifies buf
    ensures total > 0 <==> plen <= EVT_PAYLOAD_MAX && 20 + plen <= cap
    ensures 0 < total <= len ==>
              && ok && (gotEvt, gotChannel, gotParam) == (evt, channel, param)
              && ParseShort(buf[..len], PKT_EVT) ==
                 Some(Short(evt, channel, param, if payload == null then [] else payload[..plen]))
  {
    ghost var before := buf[..];
    ghost var body := if payload == null then [] else payload[..plen];
    total := Device.BuildEvt(buf, cap, evt, channel, param, payload, plen, seqNo);
    if 0 < total <= len {
      assert Sent(before, Bytes(payload, plen), plen) == body;
      ShortLength(PKT_EVT, evt, channel, param, body, seqNo);
      OverIsPacketThenRest(before, ShortPacket(PKT_EVT, evt, channel, param, body, seqNo), len);
      ShortRoundTrip(PKT_EVT, evt, channel, param, body, seqNo, before[total..len]);
    }
    ok, gotEvt, gotChannel, gotParam := Host.DecodeEvt(buf, len);
  }

  /** Frames the device packs are unpacked by the host, byte for byte. */
  method FramesReachHost(buf: array<byte>, cap: nat, frames: array<byte>, count: u8, size: nat, seqNo: u16,
                         len: nat, out: array<byte>, maxFrames: nat)
    returns (total: int, got: nat, gotSeq: nat)
    requires size > 0 && FRAMES_PER_PACKET * size < TWO_16
    requires cap <= buf.Length && len <= buf.Length && buf != frames && out !in {buf, frames}
    requires count <= FRAMES_PER_PACKET ==> count * size <= frames.Length
    requires maxFrames * size <= out.Length
    modifies buf, out
    ensures total > 0 <==> 1 <= count <= FRAMES_PER_PACKET && HEADER_SIZE + count * size <= cap
    ensures 0 < total <= len && count <= maxFrames ==>
              && got == count && gotSeq == seqNo
              && out[..] == Over(old(out[..]), frames[..count * size])
  {
    ghost var before := buf[..];
    total := Device.BuildData(buf, cap, frames, count, size, seqNo);
    if 0 < total <= len && count <= maxFrames {
      ghost var bytes := frames[..count * size];
      OverIsPacketThenRest(before, DataPacket(bytes, seqNo), len);
      DataRoundTrip(size, count, bytes, seqNo, before[total..len], maxFrames);
    }
    got, gotSeq := Host.DecodeData(buf, len, out, maxFrames, size);
  }
}
