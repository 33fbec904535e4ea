// Signals and messages as the DBC parser stores them.  `N` is the type of
// factor, offset and range.
module DbcModel {

  datatype Signal<N> = Signal(
    name: string,
    startBit: nat,
    length: nat,
    factor: N,
    offset: N,
    minValue: N,
    maxValue: N,
    unit: string,
    isSigned: bool,
    littleEndian: bool)

  datatype DbcMessage<N> = DbcMessage(
    id: nat,
    name: string,
    dlc: nat,
    txNode: string,
    signals: seq<Signal<N>>)
}
