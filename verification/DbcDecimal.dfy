// Decimal literals as the number format of a DBC file, and the way from text
// to physical values.
module DbcDecimal {
  import opened BusTypes
  import opened CanDecoder
  import opened DbcModel
  import opened DbcParsing
  import opened DbcRoundTrip
  import opened DbcText

  type digit = d: nat | d < 10

  /** [-]whole[.frac] */
  datatype Decimal = Decimal(negative: bool, whole: nat, frac: seq<digit>)

  function FracValue(frac: seq<digit>): real {
    if frac == [] then 0.0 else (frac[0] as real + FracValue(frac[1..])) / 10.0
  }

  function Value(d: Decimal): real {
    var magnitude := d.whole as real + FracValue(d.frac);
    if d.negative then -magnitude else magnitude
  }

  /** Ten times as much, `n` times over. */
  function Tens(x: real, n: nat): real {
    if n == 0 then x else 10.0 * Tens(x, n - 1)
  }

  function TensOf(v: int, n: nat): int {
    if n == 0 then v else 10 * TensOf(v, n - 1)
  }

  /** The digits read as one number. */
  function DigitsValue(frac: seq<digit>): int {
    if frac == [] then 0 else TensOf(frac[0], |frac| - 1) + DigitsValue(frac[1..])
  }

  lemma {:induction false} TensAdd(x: real, y: real, n: nat)
    ensures Tens(x + y, n) == Tens(x, n) + Tens(y, n) && Tens(-x, n) == -Tens(x, n)
  {
    if n > 0 { TensAdd(x, y, n - 1); }
  }

  lemma {:induction false} TensOfWhole(v: int, n: nat)
    ensures Tens(v as real, n) == TensOf(v, n) as real
  {
    if n > 0 { TensOfWhole(v, n - 1); }
  }

  lemma {:induction false} TensOfTenth(x: real, n: nat)
    ensures Tens(x / 10.0, n + 1) == Tens(x, n)
  {
    if n > 0 { TensOfTenth(x, n - 1); }
  }

  lemma {:induction false} FractionLaw(frac: seq<digit>)
    ensures Tens(FracValue(frac), |frac|) == DigitsValue(frac) as real
  {
    if frac != [] {
      var rest, d := frac[1..], frac[0] as real;
      FractionLaw(rest);
      TensOfTenth(d + FracValue(rest), |rest|);
      TensAdd(d, FracValue(rest), |rest|);
      TensOfWhole(frac[0], |rest|);
    }
  }

  /** A literal is the number its digits make, the point moved left by as many
      places as digits follow it, with its sign. */
  lemma ValueLaw(d: Decimal)
    ensures var n := TensOf(d.whole, |d.frac|) + DigitsValue(d.frac);
            Tens(Value(d), |d.frac|) == (if d.negative then -n else n) as real
  {
    FractionLaw(d.frac);
    TensOfWhole(d.whole, |d.frac|);
    TensAdd(d.whole as real, FracValue(d.frac), |d.frac|);
    TensAdd(d.whole as real + FracValue(d.frac), 0.0, |d.frac|);
  }

  /** Those digits, as text, read as that number. */
  lemma {:induction false} FracTextReads(frac: seq<digit>)
    ensures DigitsValue(frac) >= 0 && ReadDigits(FracText(frac), 10) == Some(DigitsValue(frac))
    decreases |frac|
  {
    var s := FracText(frac);
    if frac != [] {
      var front, last := frac[..|frac| - 1], frac[|frac| - 1];
      FracTextReads(front);
      assert s[..|s| - 1] == FracText(front);
      DigitOfChar(last);
      DigitsValueLast(front, last);
      assert front + [last] == frac;
    }
  }

  lemma {:induction false} DigitsValueLast(front: seq<digit>, last: digit)
    ensures DigitsValue(front + [last]) == 10 * DigitsValue(front) + last
  {
    var s := front + [last];
    if front == [] {
      assert s[1..] == [];
    } else {
      DigitsValueLast(front[1..], last);
      assert s[1..] == front[1..] + [last];
    }
  }

  /** 1.5 and -0.25. */
  lemma LiteralValues()
    ensures Value(Decimal(false, 1, [5])) == 1.5 && Value(Decimal(true, 0, [2, 5])) == -0.25
  {
    assert FracValue([5]) == 0.5;
    assert [2, 5][1..] == [5] && FracValue([2, 5]) == 0.25;
  }

  function FracText(frac: seq<digit>): string {
    seq(|frac|, i requires 0 <= i < |frac| => DigitChar(frac[i]))
  }

  function UnsignedText(d: Decimal): string {
    ShowNat(d.whole) + (if d.frac == [] then "" else "." + FracText(d.frac))
  }

  function Write(d: Decimal): string {
    if d.negative then "-" + UnsignedText(d) else UnsignedText(d)
  }

  predicate AllDigits(s: string) {
    s != "" && forall i | 0 <= i < |s| :: '0' <= s[i] <= '9'
  }

  function Digits(s: string): seq<digit>
    requires AllDigits(s)
  {
    seq(|s|, i requires 0 <= i < |s| => DigitValue(s[i]))
  }

  function ReadUnsigned(negative: bool, s: string): Option<Decimal> {
    var dot := Find(s, '.');
    var whole := if dot.Some? then s[..dot.value] else s;
    if !AllDigits(whole) || ReadDigits(whole, 10).None? then None
    else if dot.None? then Some(Decimal(negative, ReadDigits(whole, 10).value, []))
    else if !AllDigits(s[dot.value + 1..]) then None
    else Some(Decimal(negative, ReadDigits(whole, 10).value, Digits(s[dot.value + 1..])))
  }

  function Read(s: string): Option<Decimal> {
    if s != "" && s[0] == '-' then ReadUnsigned(true, s[1..]) else ReadUnsigned(false, s)
  }

  function Decimals(): NumFormat<Decimal> {
    NumFormat(s => Read(s), d => Write(d), Decimal(false, 0, []))
  }

  lemma UnsignedReads(d: Decimal)
    ensures ReadUnsigned(d.negative, UnsignedText(d)) == Some(d)
  {
    var w := ShowNat(d.whole);
    ShowNatReads(d.whole);
    if d.frac == [] {
      assert UnsignedText(d) == w;
    } else {
      var s := w + (['.'] + FracText(d.frac));
      FindFirst(w, '.', FracText(d.frac));
      assert s[..|w|] == w && s[|w| + 1..] == FracText(d.frac);
      FracReads(d.frac);
    }
  }

  lemma FracReads(frac: seq<digit>)
    requires frac != []
    ensures AllDigits(FracText(frac)) && Digits(FracText(frac)) == frac
  {
    forall i | 0 <= i < |frac| ensures DigitValue(FracText(frac)[i]) == frac[i] {
      DigitOfChar(frac[i]);
    }
  }

  predicate NumeralChars(s: string) {
    forall i | 0 <= i < |s| :: s[i] == '-' || s[i] == '.' || '0' <= s[i] <= '9'
  }

  lemma NumeralsArePlain(s: string)
    requires s != "" && NumeralChars(s)
    ensures PlainWord(s)
  {
  }

  lemma UnsignedIsNumeral(d: Decimal)
    ensures UnsignedText(d) != "" && NumeralChars(UnsignedText(d)) && UnsignedText(d)[0] != '-'
  {
    var w := ShowNat(d.whole);
    assert UnsignedText(d)[0] == w[0];
    if d.frac != [] { FracReads(d.frac); }
  }

  lemma WriteReads(d: Decimal)
    ensures Read(Write(d)) == Some(d) && PlainWord(Write(d))
  {
    UnsignedReads(d);
    UnsignedIsNumeral(d);
    NumeralsArePlain(Write(d));
    if d.negative {
      assert Write(d)[1..] == UnsignedText(d);
    }
  }

  /** Decimal literals are a format whose reader undoes its writer. */
  lemma DecimalsReadBack()
    ensures ReadsBack(Decimals())
  {
    forall d: Decimal ensures Decimals().read(Decimals().write(d)) == Some(d) && PlainWord(Decimals().write(d)) {
      WriteReads(d);
    }
  }

  // ----- from text to physical values -----

  function RealSignal(s: Signal<Decimal>): Signal<real> {
    Signal(s.name, s.startBit, s.length, Value(s.factor), Value(s.offset), Value(s.minValue), Value(s.maxValue),
           s.unit, s.isSigned, s.littleEndian)
  }

  function RealMessage(m: DbcMessage<Decimal>): DbcMessage<real> {
    DbcMessage(m.id, m.name, m.dlc, m.txNode,
               seq(|m.signals|, i requires 0 <= i < |m.signals| => RealSignal(m.signals[i])))
  }

  /** `out` is what decoding the frame with the message gives. */
  ghost predicate Decoded(m: DbcMessage<Decimal>, frame: BusFrame, out: seq<SignalValue>) {
    && frame.dlc <= |frame.data| && (forall s | s in RealMessage(m).signals :: WellTyped(s))
    && Decodes(RealMessage(m), frame, |m.signals|, out)
  }

  predicate Within(s: Signal<Decimal>, frame: BusFrame) {
    1 <= s.length <= 64 && s.startBit + s.length <= 8 * frame.dlc
  }

  /** The signal's field as a signed or unsigned number. */
  function FieldOf(s: Signal<Decimal>, frame: BusFrame): int
    requires frame.dlc <= |frame.data| && Within(s, frame)
  {
    FieldValue(RealSignal(s), frame.data[..frame.dlc])
  }

  /** The physical value: the field times the factor plus the offset. */
  ghost predicate Reports(physical: real, field: int, factor: real, offset: real) {
    physical == field as real * factor + offset
  }

  lemma SignalReported(m: DbcMessage<Decimal>, frame: BusFrame, out: seq<SignalValue>, j: nat, s: Signal<real>,
                       field: int)
    requires Decoded(m, frame, out) && j < |m.signals| && Within(m.signals[j], frame)
    requires s == RealSignal(m.signals[j]) && field == FieldOf(m.signals[j], frame)
    ensures j < |out| && out[j].messageName == m.name && out[j].signalName == s.name
    ensures Reports(out[j].physical, field, s.factor, s.offset)
  {
    assert RealMessage(m).signals[j] == s;
    DecodedValue(RealMessage(m), frame, out, j, s, field);
  }

  /** End to end: print a message list, parse the text, decode a frame with any
      parsed message, and every signal printed that lies within the frame has its
      field times the factor plus the offset written for it. */
  lemma TextToPhysical(ms: seq<DbcMessage<Decimal>>, parsed: Parsed<Decimal>, i: nat, j: nat, frame: BusFrame,
                       out: seq<SignalValue>, field: int, factor: real, offset: real)
    requires Printable(ms) && parsed == ParseText(Decimals(), Print(Decimals(), ms))
    requires i < |parsed.messages| && Decoded(parsed.messages[i], frame, out)
    requires i < |ms| && j < |ms[i].signals| && Within(ms[i].signals[j], frame)
    requires factor == Value(ms[i].signals[j].factor) && offset == Value(ms[i].signals[j].offset)
    requires field == FieldOf(ms[i].signals[j], frame)
    ensures parsed.error.None? && |parsed.messages| == |ms| && j < |out|
    ensures out[j].messageName == ms[i].name && out[j].signalName == ms[i].signals[j].name
    ensures Reports(out[j].physical, field, factor, offset)
  {
    ParsedIsPrinted(ms, parsed);
    var s := RealSignal(ms[i].signals[j]);
    SignalReported(ms[i], frame, out, j, s, field);
    SameScale(out[j].physical, field, s.factor, s.offset, factor, offset);
  }

  lemma SameScale(x: real, v: int, f: real, o: real, factor: real, offset: real)
    requires Reports(x, v, f, o) && f == factor && o == offset
    ensures Reports(x, v, factor, offset)
  {
  }

  lemma ParsedIsPrinted(ms: seq<DbcMessage<Decimal>>, parsed: Parsed<Decimal>)
    requires Printable(ms) && parsed == ParseText(Decimals(), Print(Decimals(), ms))
    ensures parsed == Parsed(ms, None)
  {
    DecimalsReadBack();
    ParsePrint(Decimals(), ms);
  }
}
