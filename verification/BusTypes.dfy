// Shared vocabulary of the bus test platform: bytes, bus frames and the
// limits fixed by the shared header (shared/include/bus/bus_types.h).
module BusTypes {

  datatype Option<+T> = None | Some(value: T)

  type byte = x: int | 0 <= x < 256

  const TWO_8: nat := 0x100
  const TWO_16: nat := 0x1_0000
  const TWO_32: nat := 0x1_0000_0000
  const TWO_64: nat := 0x1_0000_0000_0000_0000

  const MAX_PAYLOAD: nat := 64
  const MAX_CHANNELS: nat := 8

  datatype BusType = Unknown | Can | CanFd | CanXl | Lin

  datatype Direction = Rx | Tx

  datatype FrameStatus = Good | Faulty | Overrun

  /** The unified bus frame; `data` always has MAX_PAYLOAD bytes, of which the
      first `dlc` are meaningful. */
  datatype BusFrame = BusFrame(
    timestamp: nat,
    busType: BusType,
    channel: nat,
    dir: Direction,
    id: nat,
    extended: bool,
    fd: bool,
    dlc: nat,
    data: seq<byte>,
    status: FrameStatus)

  function Zeros(n: nat): (z: seq<byte>)
    ensures |z| == n && forall i | 0 <= i < n :: z[i] == 0
  {
    seq(n, _ => 0)
  }

  /** A value-initialised frame, as `BusFrame f{}` gives. */
  function Blank(): BusFrame {
    BusFrame(0, Unknown, 0, Rx, 0, false, false, 0, Zeros(MAX_PAYLOAD), Good)
  }

  /** The limits of the shared header. */
  lemma SharedLimits()
    ensures MAX_PAYLOAD == 64 && MAX_CHANNELS == 8
  {
  }
}
