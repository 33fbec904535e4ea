// Printing a message list as DBC text and parsing it back.
module DbcRoundTrip {
  import opened Arith
  import opened BusTypes
  import opened DbcModel
  import opened DbcText
  import opened DbcParsing

  // ----- canonical text -----

  function PrintGeometry<N>(s: Signal<N>): string {
    ShowNat(s.startBit) + ("|" + (ShowNat(s.length) + ("@" +
    ((if s.littleEndian then "0" else "1") + (if s.isSigned then "-" else "+")))))
  }

  function PrintFactor<N>(f: NumFormat<N>, s: Signal<N>): string {
    "(" + (f.write(s.factor) + ("," + (f.write(s.offset) + ")")))
  }

  function PrintRange<N>(f: NumFormat<N>, s: Signal<N>): string {
    "[" + (f.write(s.minValue) + ("|" + (f.write(s.maxValue) + "]")))
  }

  function PrintUnit<N>(s: Signal<N>): string {
    "\"" + (s.unit + ("\"" + " Vector__XXX"))
  }

  /** What follows the keyword of a signal line. */
  function SgText<N>(f: NumFormat<N>, s: Signal<N>): string {
    s.name + (" " + (":" + (" " + (PrintGeometry(s) + (" " + (PrintFactor(f, s) + (" " +
    (PrintRange(f, s) + (" " + PrintUnit(s))))))))))
  }

  function PrintSg<N>(f: NumFormat<N>, s: Signal<N>): string {
    " " + ("SG_ " + SgText(f, s))
  }

  function NodeText(node: string): string {
    if node == "" then "" else " " + node
  }

  function BoText<N>(m: DbcMessage<N>): string {
    ShowNat(m.id) + (" " + ((m.name + ":") + (" " + (ShowNat(m.dlc) + NodeText(m.txNode)))))
  }

  function PrintBo<N>(m: DbcMessage<N>): string {
    "BO_ " + BoText(m)
  }

  /** A message line and its signal lines. */
  function Block<N>(f: NumFormat<N>, m: DbcMessage<N>): seq<string> {
    [PrintBo(m)] + seq(|m.signals|, i requires 0 <= i < |m.signals| => PrintSg(f, m.signals[i]))
  }

  function Concat(blocks: seq<seq<string>>): seq<string> {
    if blocks == [] then [] else blocks[0] + Concat(blocks[1..])
  }

  function PrintLines<N>(f: NumFormat<N>, ms: seq<DbcMessage<N>>): seq<string> {
    Concat(seq(|ms|, i requires 0 <= i < |ms| => Block(f, ms[i])))
  }

  function Print<N>(f: NumFormat<N>, ms: seq<DbcMessage<N>>): string {
    Unlines(PrintLines(f, ms))
  }

  // ----- what can be printed -----

  ghost predicate PrintableSignal<N>(s: Signal<N>) {
    && s.name != "" && SpaceFree(s.name) && !EndsWithColon(s.name)
    && s.startBit < TWO_8 && s.length <= 64
    && '"' !in s.unit && '\n' !in s.unit
  }

  ghost predicate PrintableMessage<N>(m: DbcMessage<N>) {
    && m.id < TWO_32 && m.dlc <= MAX_PAYLOAD && SpaceFree(m.name) && SpaceFree(m.txNode)
    && (forall i | 0 <= i < |m.signals| :: PrintableSignal(m.signals[i]))
  }

  ghost predicate Printable<N>(ms: seq<DbcMessage<N>>) {
    forall i | 0 <= i < |ms| :: PrintableMessage(ms[i])
  }

  // ----- the pieces of a signal line -----

  lemma GeometrySplits(a: string, b: string, flags: string)
    requires '|' !in a && '@' !in a && '@' !in b
    ensures var geom := a + ("|" + (b + ("@" + flags)));
            && Find(geom, '|') == Some(|a|) && Find(geom, '@') == Some(|a| + 1 + |b|)
            && geom[..|a|] == a && geom[|a| + 1..|a| + 1 + |b|] == b
            && |geom| == |a| + |b| + 2 + |flags| && geom[|a| + |b| + 2..] == flags
  {
    var upToAt := a + ("|" + b);
    var geom := a + ("|" + (b + ("@" + flags)));
    FindFirst(a, '|', b + ("@" + flags));
    assert geom == upToAt + ("@" + flags);
    FindFirst(upToAt, '@', flags);
  }

  lemma GeometryOf(a: string, b: string, flags: string, start: nat, len: nat)
    requires '|' !in a && '@' !in a && '@' !in b && |flags| == 2
    requires ParseU32(a) == Some(start) && ParseU32(b) == Some(len)
    ensures SgGeometry(a + ("|" + (b + ("@" + flags)))) ==
            Ok(Geometry(start % 256, if len > 64 then 64 else len, flags[0] == '0', flags[1] == '-'))
  {
    GeometrySplits(a, b, flags);
    NumbersRead(a + ("|" + (b + ("@" + flags))), |a| + 1 + |b|, start, len, flags);
  }

  lemma NumbersRead(geom: string, at: nat, start: nat, len: nat, flags: string)
    requires |flags| == 2 && |geom| == at + 3 && geom[at + 1..] == flags
    ensures SgNumbers(geom, at, Some(start), Some(len)) ==
            Ok(Geometry(start % 256, if len > 64 then 64 else len, flags[0] == '0', flags[1] == '-'))
  {
    assert geom[at + 1..][0] == geom[at + 1] && geom[at + 1..][1] == geom[at + 2];
  }

  lemma GeometryReads<N>(s: Signal<N>)
    requires PrintableSignal(s)
    ensures SgGeometry(PrintGeometry(s)) == Ok(Geometry(s.startBit, s.length, s.littleEndian, s.isSigned))
  {
    ShowNatPlain(s.startBit);
    ShowNatPlain(s.length);
    ParseU32Show(s.startBit);
    ParseU32Show(s.length);
    DivModUnique(256, s.startBit, 0, s.startBit);
    GeometryOf(ShowNat(s.startBit), ShowNat(s.length),
               (if s.littleEndian then "0" else "1") + (if s.isSigned then "-" else "+"), s.startBit, s.length);
  }

  lemma PairReads<N(!new)>(f: NumFormat<N>, a: N, b: N, separator: char)
    requires ReadsBack(f) && IsPunctuation(separator)
    ensures ReadPair(f, f.write(a) + ([separator] + f.write(b)), separator) == Some((a, b))
  {
    var x, y := f.write(a), f.write(b);
    assert PlainWord(x);
    FindFirst(x, separator, y);
    var inner := x + ([separator] + y);
    assert inner[..|x|] == x && inner[|x| + 1..] == y;
    assert f.read(x) == Some(a) && f.read(y) == Some(b);
  }

  predicate Encloses(s: string, open: char, inner: string, close: char) {
    && Find(s, open) == Some(0) && Find(s, close) == Some(|inner| + 1)
    && |s| == |inner| + 2 && s[1..|inner| + 1] == inner
  }

  /** `open + inner + close` with `close` nowhere inside. */
  lemma Bracketed(open: char, inner: string, close: char)
    requires open != close && close !in inner
    ensures Encloses([open] + (inner + [close]), open, inner, close)
  {
    FindFirst([open] + inner, close, "");
    assert [open] + (inner + [close]) == ([open] + inner) + ([close] + "");
  }

  lemma Regrouped(open: string, x: string, separator: string, y: string, close: string)
    ensures open + (x + (separator + (y + close))) == open + ((x + (separator + y)) + close)
  {
  }

  lemma PunctuationNotInside(x: string, separator: char, y: string, c: char)
    requires PlainWord(x) && PlainWord(y) && IsPunctuation(c) && c != separator
    ensures c !in x + ([separator] + y)
  {
  }

  /** Two printed numbers between brackets that neither contains. */
  lemma BracketedPair<N(!new)>(f: NumFormat<N>, a: N, b: N, open: char, separator: char, close: char)
    requires ReadsBack(f) && open != close && separator != close
    requires IsPunctuation(separator) && IsPunctuation(close)
    ensures Encloses([open] + (f.write(a) + ([separator] + (f.write(b) + [close]))), open,
                     f.write(a) + ([separator] + f.write(b)), close)
  {
    assert PlainWord(f.write(a)) && PlainWord(f.write(b));
    BracketedWords(f.write(a), f.write(b), open, separator, close);
  }

  lemma BracketedWords(x: string, y: string, open: char, separator: char, close: char)
    requires PlainWord(x) && PlainWord(y) && open != close && separator != close && IsPunctuation(close)
    ensures Encloses([open] + (x + ([separator] + (y + [close]))), open, x + ([separator] + y), close)
  {
    PunctuationNotInside(x, separator, y, close);
    Bracketed(open, x + ([separator] + y), close);
    Regrouped([open], x, [separator], y, [close]);
  }

  lemma FactorReads<N(!new)>(f: NumFormat<N>, s: Signal<N>)
    requires ReadsBack(f)
    ensures SgFactor(f, PrintFactor(f, s)) == Ok((s.factor, s.offset))
  {
    BracketedPair(f, s.factor, s.offset, '(', ',', ')');
    PairReads(f, s.factor, s.offset, ',');
  }

  lemma RangeReads<N(!new)>(f: NumFormat<N>, s: Signal<N>)
    requires ReadsBack(f)
    ensures SgRange(f, PrintRange(f, s)) == Some((s.minValue, s.maxValue))
  {
    BracketedPair(f, s.minValue, s.maxValue, '[', '|', ']');
    PairReads(f, s.minValue, s.maxValue, '|');
  }

  lemma UnitReads<N>(s: Signal<N>)
    requires PrintableSignal(s)
    ensures SgUnit(" " + PrintUnit(s)) == s.unit
  {
    var text := PrintUnit(s);
    TrimExact(text);
    FindFirst(s.unit, '"', " Vector__XXX");
    assert text[1..] == s.unit + (['"'] + " Vector__XXX");
    assert text[1..][..|s.unit|] == s.unit;
  }

  lemma WordsAreSpaceFree<N(!new)>(f: NumFormat<N>, s: Signal<N>)
    requires ReadsBack(f) && PrintableSignal(s)
    ensures SpaceFree(PrintGeometry(s)) && SpaceFree(PrintFactor(f, s)) && SpaceFree(PrintRange(f, s))
  {
    ShowNatPlain(s.startBit);
    ShowNatPlain(s.length);
    assert PlainWord(f.write(s.factor)) && PlainWord(f.write(s.offset));
    assert PlainWord(f.write(s.minValue)) && PlainWord(f.write(s.maxValue));
  }

  lemma SgBodyReads<N(!new)>(f: NumFormat<N>, s: Signal<N>, line: string)
    requires ReadsBack(f) && PrintableSignal(s)
    ensures SgBody(f, s.name, " " + (PrintGeometry(s) + (" " + (PrintFactor(f, s) + (" " +
                              (PrintRange(f, s) + (" " + PrintUnit(s))))))), line) == Ok(s)
  {
    WordsAreSpaceFree(f, s);
    var afterRange := " " + PrintUnit(s);
    var afterFactor := " " + (PrintRange(f, s) + afterRange);
    var afterGeometry := " " + (PrintFactor(f, s) + afterFactor);
    TokenRead(PrintGeometry(s), afterGeometry);
    GeometryReads(s);
    TokenRead(PrintFactor(f, s), afterFactor);
    FactorReads(f, s);
    TokenRead(PrintRange(f, s), afterRange);
    RangeReads(f, s);
    UnitReads(s);
  }

  lemma SgLineReads<N(!new)>(f: NumFormat<N>, s: Signal<N>)
    requires ReadsBack(f) && PrintableSignal(s)
    ensures SgLine(f, "SG_ " + SgText(f, s)) == Ok(s)
  {
    var line := "SG_ " + SgText(f, s);
    var body := " " + (PrintGeometry(s) + (" " + (PrintFactor(f, s) + (" " +
                (PrintRange(f, s) + (" " + PrintUnit(s)))))));
    assert line[4..] == SgText(f, s);
    TokenRead(s.name, " " + (":" + body));
    TokenRead(":", body);
    SgBodyReads(f, s, line);
  }

  lemma NodeReads(node: string)
    requires SpaceFree(node)
    ensures (match NextToken(NodeText(node)) case None => "" case Some(t) => t.word) == node
    ensures EndsWord(NodeText(node))
  {
    if node == "" {
      NoToken();
    } else {
      TokenRead(node, "");
      assert node + "" == node;
    }
  }

  lemma BoFieldsRead<N>(m: DbcMessage<N>)
    requires PrintableMessage(m)
    ensures BoFields<N>(ShowNat(m.id), m.name, ShowNat(m.dlc), NodeText(m.txNode)) == Ok(m.(signals := []))
  {
    NodeReads(m.txNode);
    ParseU32Show(m.id);
    ParseU32Show(m.dlc);
  }

  lemma BoNameReads(name: string, rest: string, line: string)
    ensures BoName(name + ":", rest, line) == Ok(Token(name, rest))
  {
    var glued := name + ":";
    assert glued[..|glued| - 1] == name;
  }

  /** A line of three words and what follows, the second with its colon. */
  lemma BoWords<N>(line: string, idTok: string, name: string, dlcTok: string, afterDlc: string)
    requires idTok != "" && SpaceFree(idTok) && SpaceFree(name) && dlcTok != "" && SpaceFree(dlcTok)
    requires EndsWord(afterDlc) && |line| >= 4
    requires line[4..] == idTok + (" " + ((name + ":") + (" " + (dlcTok + afterDlc))))
    ensures BoLine<N>(line) == BoFields<N>(idTok, name, dlcTok, afterDlc)
  {
    var afterName := " " + (dlcTok + afterDlc);
    TokenRead(idTok, " " + ((name + ":") + afterName));
    TokenRead(name + ":", afterName);
    BoNameReads(name, afterName, line);
    TokenRead(dlcTok, afterDlc);
  }

  lemma BoLineReads<N>(m: DbcMessage<N>)
    requires PrintableMessage(m)
    ensures BoLine<N>(PrintBo(m)) == Ok(m.(signals := []))
  {
    assert PrintBo(m)[4..] == BoText(m);
    ShowNatPlain(m.id);
    ShowNatPlain(m.dlc);
    NodeReads(m.txNode);
    BoWords<N>(PrintBo(m), ShowNat(m.id), m.name, ShowNat(m.dlc), NodeText(m.txNode));
    BoFieldsRead(m);
  }

  // ----- lines and files -----

  lemma SgLineTrims<N>(f: NumFormat<N>, s: Signal<N>)
    ensures Trim(PrintSg(f, s)) == "SG_ " + SgText(f, s)
  {
    var t := "SG_ " + SgText(f, s);
    var unit := PrintUnit(s);
    assert unit[|unit| - 1] == 'X';
    assert t[|t| - 1] == unit[|unit| - 1];
    TrimExact(t);
  }

  lemma BoLineTrims<N>(m: DbcMessage<N>)
    requires PrintableMessage(m)
    ensures Trim(PrintBo(m)) == PrintBo(m)
  {
    var t, dlc := PrintBo(m), ShowNat(m.dlc);
    ShowNatPlain(m.dlc);
    if m.txNode == "" {
      assert t[|t| - 1] == dlc[|dlc| - 1];
    } else {
      assert t[|t| - 1] == m.txNode[|m.txNode| - 1];
    }
    TrimExact(t);
  }

  lemma SignalParses<N(!new)>(f: NumFormat<N>, ms: seq<DbcMessage<N>>, m: DbcMessage<N>, s: Signal<N>)
    requires ReadsBack(f) && PrintableSignal(s)
    ensures ParseLine(f, ms + [m], PrintSg(f, s)) == Parsed(ms + [m.(signals := m.signals + [s])], None)
  {
    SgLineTrims(f, s);
    SgLineReads(f, s);
    var t := "SG_ " + SgText(f, s);
    assert t[0] == 'S' && "SG_ " <= t;
    assert AddSignal(ms + [m], s) == ms + [m.(signals := m.signals + [s])];
  }

  lemma MessageParses<N>(f: NumFormat<N>, ms: seq<DbcMessage<N>>, m: DbcMessage<N>)
    requires PrintableMessage(m)
    ensures ParseLine(f, ms, PrintBo(m)) == Parsed(ms + [m.(signals := [])], None)
  {
    BoLineTrims(m);
    BoLineReads(m);
    assert "BO_ " <= PrintBo(m);
  }

  /** The line appends signal `s` to the last message. */
  ghost predicate Appends<N(!new)>(step: LineStep<N>, line: string, s: Signal<N>) {
    forall ms: seq<DbcMessage<N>>, m: DbcMessage<N> ::
      step(ms + [m], line) == Parsed(ms + [m.(signals := m.signals + [s])], None)
  }

  /** The lines append message `m`. */
  ghost predicate Delivers<N(!new)>(step: LineStep<N>, lines: seq<string>, m: DbcMessage<N>) {
    forall ms: seq<DbcMessage<N>> :: Fold(step, ms, lines) == Parsed(ms + [m], None)
  }

  lemma {:induction false} SignalsFold<N(!new)>(step: LineStep<N>, ms: seq<DbcMessage<N>>, m: DbcMessage<N>,
                                                lines: seq<string>, ss: seq<Signal<N>>)
    requires |lines| == |ss| && forall i | 0 <= i < |ss| :: Appends(step, lines[i], ss[i])
    ensures Fold(step, ms + [m], lines) == Parsed(ms + [m.(signals := m.signals + ss)], None)
    decreases |ss|
  {
    if ss == [] {
      assert m.signals + ss == m.signals;
    } else {
      var m' := m.(signals := m.signals + [ss[0]]);
      assert Appends(step, lines[0], ss[0]);
      SignalsFold(step, ms, m', lines[1..], ss[1..]);
      assert m'.signals + ss[1..] == m.signals + ss;
    }
  }

  lemma {:induction false} BlocksFold<N(!new)>(step: LineStep<N>, before: seq<DbcMessage<N>>,
                                               blocks: seq<seq<string>>, ms: seq<DbcMessage<N>>)
    requires |blocks| == |ms| && forall i | 0 <= i < |ms| :: Delivers(step, blocks[i], ms[i])
    ensures Fold(step, before, Concat(blocks)) == Parsed(before + ms, None)
    decreases |ms|
  {
    if ms == [] {
      assert before + ms == before;
    } else {
      assert Delivers(step, blocks[0], ms[0]);
      FoldConcat(step, before, blocks[0], Concat(blocks[1..]));
      BlocksFold(step, before + [ms[0]], blocks[1..], ms[1..]);
      assert before + [ms[0]] + ms[1..] == before + ms;
    }
  }

  /** A first line that opens a message, and lines that append its signals. */
  lemma OpenedThenFilled<N(!new)>(step: LineStep<N>, ms: seq<DbcMessage<N>>, line: string, lines: seq<string>,
                                  m: DbcMessage<N>)
    requires step(ms, line) == Parsed(ms + [m.(signals := [])], None)
    requires |lines| == |m.signals| && forall i | 0 <= i < |lines| :: Appends(step, lines[i], m.signals[i])
    ensures Fold(step, ms, [line] + lines) == Parsed(ms + [m], None)
  {
    SignalsFold(step, ms, m.(signals := []), lines, m.signals);
    assert ([line] + lines)[1..] == lines && [] + m.signals == m.signals;
  }

  lemma StepAppends<N(!new)>(f: NumFormat<N>, s: Signal<N>)
    requires ReadsBack(f) && PrintableSignal(s)
    ensures Appends(StepOf(f), PrintSg(f, s), s)
  {
    forall ms: seq<DbcMessage<N>>, m: DbcMessage<N>
      ensures StepOf(f)(ms + [m], PrintSg(f, s)) == Parsed(ms + [m.(signals := m.signals + [s])], None)
    {
      SignalParses(f, ms, m, s);
    }
  }

  lemma StepDelivers<N(!new)>(f: NumFormat<N>, m: DbcMessage<N>)
    requires ReadsBack(f) && PrintableMessage(m)
    ensures Delivers(StepOf(f), Block(f, m), m)
  {
    var lines := seq(|m.signals|, i requires 0 <= i < |m.signals| => PrintSg(f, m.signals[i]));
    forall i | 0 <= i < |lines| ensures Appends(StepOf(f), lines[i], m.signals[i]) {
      StepAppends(f, m.signals[i]);
    }
    forall ms: seq<DbcMessage<N>> ensures Fold(StepOf(f), ms, Block(f, m)) == Parsed(ms + [m], None) {
      MessageParses(f, ms, m);
      OpenedThenFilled(StepOf(f), ms, PrintBo(m), lines, m);
    }
  }

  // ----- no printed line contains a line break -----

  lemma SpaceFreeOneLine(s: string)
    requires SpaceFree(s)
    ensures OneLine(s)
  {
  }

  lemma SignalOneLine<N(!new)>(f: NumFormat<N>, s: Signal<N>)
    requires ReadsBack(f) && PrintableSignal(s)
    ensures OneLine(PrintSg(f, s))
  {
    WordsAreSpaceFree(f, s);
    SpaceFreeOneLine(PrintGeometry(s));
    SpaceFreeOneLine(PrintFactor(f, s));
    SpaceFreeOneLine(PrintRange(f, s));
    SpaceFreeOneLine(s.name);
  }

  lemma MessageOneLine<N>(m: DbcMessage<N>)
    requires PrintableMessage(m)
    ensures OneLine(PrintBo(m))
  {
    ShowNatPlain(m.id);
    ShowNatPlain(m.dlc);
    SpaceFreeOneLine(m.name);
    SpaceFreeOneLine(m.txNode);
  }

  ghost predicate AllOneLine(lines: seq<string>) {
    forall i | 0 <= i < |lines| :: OneLine(lines[i])
  }

  lemma BlockOneLine<N(!new)>(f: NumFormat<N>, m: DbcMessage<N>)
    requires ReadsBack(f) && PrintableMessage(m)
    ensures AllOneLine(Block(f, m))
  {
    MessageOneLine(m);
    forall i | 0 <= i < |m.signals| ensures OneLine(PrintSg(f, m.signals[i])) {
      SignalOneLine(f, m.signals[i]);
    }
  }

  lemma {:induction false} ConcatOneLine(blocks: seq<seq<string>>)
    requires forall i | 0 <= i < |blocks| :: AllOneLine(blocks[i])
    ensures AllOneLine(Concat(blocks))
  {
    if blocks != [] {
      ConcatOneLine(blocks[1..]);
      assert AllOneLine(blocks[0]);
    }
  }

  /** Round trip: parsing the canonical text of any printable message list
      succeeds and returns exactly that list, for any number format whose
      reader undoes its writer. */
  lemma ParsePrint<N(!new)>(f: NumFormat<N>, ms: seq<DbcMessage<N>>)
    requires ReadsBack(f) && Printable(ms)
    ensures ParseText(f, Print(f, ms)) == Parsed(ms, None)
  {
    var blocks := seq(|ms|, i requires 0 <= i < |ms| => Block(f, ms[i]));
    forall i | 0 <= i < |ms|
      ensures Delivers(StepOf(f), blocks[i], ms[i]) && AllOneLine(blocks[i])
    {
      assert PrintableMessage(ms[i]);
      StepDelivers(f, ms[i]);
      BlockOneLine(f, ms[i]);
    }
    ConcatOneLine(blocks);
    LinesOfUnlines(Concat(blocks));
    BlocksFold(StepOf(f), [], blocks, ms);
    assert [] + ms == ms;
  }

  /** Hence the printed text determines the list. */
  lemma PrintInjective<N(!new)>(f: NumFormat<N>, a: seq<DbcMessage<N>>, b: seq<DbcMessage<N>>)
    requires ReadsBack(f) && Printable(a) && Printable(b) && Print(f, a) == Print(f, b)
    ensures a == b
  {
    ParsePrint(f, a);
    ParsePrint(f, b);
  }

  // ----- units -----

  ghost predicate QuoteFree(s: string) {
    '"' !in s
  }

  function Quoted(unit: string): string {
    "\"" + (unit + "\"")
  }

  /** `s` holds at most one quote. */
  ghost predicate AtMostOneQuote(s: string) {
    forall i, j | 0 <= i < j < |s| :: !(s[i] == '"' && s[j] == '"')
  }

  lemma {:induction false} TrimKeepsAtMostOneQuote(s: string)
    requires AtMostOneQuote(s)
    ensures AtMostOneQuote(TrimLeft(s)) && AtMostOneQuote(TrimRight(s))
    decreases |s|
  {
    if s != "" {
      TrimKeepsAtMostOneQuote(s[1..]);
      TrimKeepsAtMostOneQuote(s[..|s| - 1]);
    }
  }

  /** A single quote is no unit. */
  lemma OneQuoteIsNoUnit(s: string)
    requires AtMostOneQuote(s)
    ensures SgUnit(s) == ""
  {
    TrimKeepsAtMostOneQuote(s);
    TrimKeepsAtMostOneQuote(TrimLeft(s));
  }

  lemma TokenTakesFirst(s: string)
    requires s != "" && !IsSpace(s[0])
    ensures var t := NextToken(" " + s);
            t.Some? && exists n: nat :: 1 <= n <= |s| && t.value.rest == s[n..]
  {
    assert (" " + s)[1..] == s && SkipSpaces(s) == s;
    assert SkipSpaces(" " + s) == s;
    assert NextToken(" " + s).value.rest == s[WordLength(s)..] && WordLength(s) >= 1;
  }

  /** Nothing before the unit: its opening quote goes with the range token, so
      the unit is lost whatever it is. */
  lemma LeadingUnitIsLost<N>(f: NumFormat<N>, name: string, g: Geometry, phys: (N, N), unit: string, rest: string)
    requires QuoteFree(unit) && QuoteFree(rest)
    ensures SgTail(f, name, g, phys, " " + (Quoted(unit) + rest)).unit == ""
  {
    var s := Quoted(unit) + rest;
    TokenTakesFirst(s);
    var n: nat :| 1 <= n <= |s| && NextToken(" " + s).value.rest == s[n..];
    SwallowedUnitIsLost(unit, rest, n);
  }

  lemma SwallowedUnitIsLost(unit: string, rest: string, n: nat)
    requires QuoteFree(unit) && QuoteFree(rest) && 1 <= n <= |Quoted(unit) + rest|
    ensures SgUnit((Quoted(unit) + rest)[n..]) == ""
  {
    var left := (Quoted(unit) + rest)[n..];
    forall i, j | 0 <= i < j < |left|
      ensures !(left[i] == '"' && left[j] == '"')
    {
      OneQuoteAfterTheFirst(unit, rest, n + i);
      OneQuoteAfterTheFirst(unit, rest, n + j);
    }
    OneQuoteIsNoUnit(left);
  }

  lemma OneQuoteAfterTheFirst(unit: string, rest: string, i: nat)
    requires QuoteFree(unit) && QuoteFree(rest) && 1 <= i < |Quoted(unit) + rest|
    ensures (Quoted(unit) + rest)[i] == '"' ==> i == |unit| + 1
  {
    if i <= |unit| {
      assert (Quoted(unit) + rest)[i] == unit[i - 1];
    } else if i > |unit| + 1 {
      assert (Quoted(unit) + rest)[i] == rest[i - |unit| - 2];
    }
  }

  lemma {:induction false} TrimRightKeeps(a: string, b: string)
    requires a != "" && !IsBlank(a[|a| - 1])
    ensures TrimRight(a + b) == a + TrimRight(b)
    decreases |b|
  {
    if b == "" {
      assert a + b == a;
    } else {
      assert (a + b)[|a + b| - 1] == b[|b| - 1] && (a + b)[..|a + b| - 1] == a + b[..|b| - 1];
      TrimRightKeeps(a, b[..|b| - 1]);
    }
  }

  lemma UnitRead(unit: string, rest: string)
    requires QuoteFree(unit)
    ensures SgUnit(" " + (Quoted(unit) + rest)) == unit
  {
    var s := Quoted(unit) + rest;
    assert (" " + s)[1..] == s && s[0] == '"';
    TrimRightKeeps(Quoted(unit), rest);
    var text := Quoted(unit) + TrimRight(rest);
    assert TrimLeft(s) == s;
    assert TrimLeft(" " + s) == s;
    assert Trim(" " + s) == text;
    assert text[1..] == unit + (['"'] + TrimRight(rest));
    FindFirst(unit, '"', TrimRight(rest));
    assert text[1..][..|unit|] == unit;
  }

  /** Any word before the unit, a range or not, keeps it. */
  lemma UnitBehindAWordIsKept<N>(f: NumFormat<N>, name: string, g: Geometry, phys: (N, N), word: string,
                                 unit: string, rest: string)
    requires word != "" && SpaceFree(word) && QuoteFree(unit)
    ensures SgTail(f, name, g, phys, " " + (word + (" " + (Quoted(unit) + rest)))).unit == unit
  {
    TokenRead(word, " " + (Quoted(unit) + rest));
    UnitRead(unit, rest);
  }

  // What stands between the factor and the unit, in general.

  lemma {:induction false} SkipSpacesAppend(pre: string, s: string)
    ensures SkipSpaces(pre + s) == if SkipSpaces(pre) == "" then SkipSpaces(s) else SkipSpaces(pre) + s
    decreases |pre|
  {
    if pre == "" {
      assert pre + s == s;
    } else if IsSpace(pre[0]) {
      assert (pre + s)[1..] == pre[1..] + s;
      SkipSpacesAppend(pre[1..], s);
    }
  }

  lemma {:induction false} WordLengthAppend(t: string, s: string)
    ensures WordLength(t + s) == if WordLength(t) < |t| then WordLength(t) else |t| + WordLength(s)
    decreases |t|
  {
    if t == "" {
      assert t + s == s;
    } else if !IsSpace(t[0]) {
      assert (t + s)[1..] == t[1..] + s;
      WordLengthAppend(t[1..], s);
    }
  }

  predicate AllBlank(s: string) {
    forall i | 0 <= i < |s| :: IsBlank(s[i])
  }

  lemma {:induction false} TrimLeftAppend(r: string, s: string)
    ensures AllBlank(r) ==> TrimLeft(r + s) == TrimLeft(s)
    ensures !AllBlank(r) ==> TrimLeft(r) != "" && TrimLeft(r)[0] in r && !IsBlank(TrimLeft(r)[0])
                             && TrimLeft(r + s) == TrimLeft(r) + s
    decreases |r|
  {
    if r == "" {
      assert r + s == s;
    } else if IsBlank(r[0]) {
      assert (r + s)[1..] == r[1..] + s;
      TrimLeftAppend(r[1..], s);
    }
  }

  lemma {:induction false} TrimRightFirst(s: string)
    requires s != "" && !IsBlank(s[0])
    ensures TrimRight(s) != "" && TrimRight(s)[0] == s[0]
    decreases |s|
  {
    if |s| > 1 { TrimRightFirst(s[..|s| - 1]); }
  }

  /** The range token takes the opening quote when it starts at the quote or
      runs into it. */
  lemma QuoteIsSwallowed(pre: string, s: string)
    requires s != "" && s[0] == '"'
    requires var t := NextToken(pre); t.None? || t.value.rest == ""
    ensures var t := NextToken(pre + s); t.Some? && exists n: nat :: 1 <= n <= |s| && t.value.rest == s[n..]
  {
    SkipSpacesAppend(pre, s);
    assert SkipSpaces(s) == s && WordLength(s) >= 1;
    var t, k := SkipSpaces(pre), WordLength(s);
    if t == "" {
      assert NextToken(pre + s).value.rest == s[k..];
    } else {
      WordLengthAppend(t, s);
      assert WordLength(t) == |t|;
      assert (t + s)[|t| + k..] == s[k..];
    }
  }

  /** Otherwise what is left of `pre` stands before the unit. */
  lemma TokenEndsBefore(pre: string, s: string)
    requires var t := NextToken(pre); t.Some? && t.value.rest != ""
    ensures NextToken(pre + s) == Some(Token(NextToken(pre).value.word, NextToken(pre).value.rest + s))
  {
    SkipSpacesAppend(pre, s);
    var t := SkipSpaces(pre);
    var k := WordLength(t);
    WordLengthAppend(t, s);
    assert (t + s)[..k] == t[..k] && (t + s)[k..] == t[k..] + s;
  }

  lemma RemainderUnit(r: string, unit: string, rest: string)
    requires QuoteFree(r) && QuoteFree(unit)
    ensures SgUnit(r + (Quoted(unit) + rest)) == if AllBlank(r) then unit else ""
  {
    var s := Quoted(unit) + rest;
    TrimLeftAppend(r, s);
    if AllBlank(r) {
      TrimLeftAppend(" ", s);
      assert Trim(r + s) == Trim(" " + s);
      UnitRead(unit, rest);
    } else {
      assert (TrimLeft(r) + s)[0] == TrimLeft(r)[0];
      TrimRightFirst(TrimLeft(r) + s);
    }
  }

  /** The first word of `pre` stands apart from the unit by blanks only. */
  predicate OneWordApart(pre: string) {
    var t := NextToken(pre);
    t.Some? && t.value.rest != "" && AllBlank(t.value.rest)
  }

  /** Exactly when a unit is kept, for any quote-free text between factor and
      unit: one word, a range or not, stands apart from it, or there is nothing
      to keep.  Otherwise it is lost altogether. */
  lemma UnitKeptIff<N>(f: NumFormat<N>, name: string, g: Geometry, phys: (N, N), pre: string, unit: string,
                       rest: string)
    requires QuoteFree(pre) && QuoteFree(unit) && QuoteFree(rest)
    ensures SgTail(f, name, g, phys, pre + (Quoted(unit) + rest)).unit == if OneWordApart(pre) then unit else ""
    ensures SgTail(f, name, g, phys, pre + (Quoted(unit) + rest)).unit == unit <==> unit == "" || OneWordApart(pre)
  {
    var s, t := Quoted(unit) + rest, NextToken(pre);
    if t.Some? && t.value.rest != "" {
      TokenEndsBefore(pre, s);
      RestIsQuoteFree(pre);
      RemainderUnit(t.value.rest, unit, rest);
    } else {
      QuoteIsSwallowed(pre, s);
      var n: nat :| 1 <= n <= |s| && NextToken(pre + s).value.rest == s[n..];
      SwallowedUnitIsLost(unit, rest, n);
    }
  }

  lemma {:induction false} SkipSpacesIsSuffix(s: string)
    ensures exists n: nat :: n <= |s| && SkipSpaces(s) == s[n..]
  {
    if s != "" && IsSpace(s[0]) {
      SkipSpacesIsSuffix(s[1..]);
      var n: nat :| n <= |s[1..]| && SkipSpaces(s[1..]) == s[1..][n..];
      assert s[1..][n..] == s[n + 1..];
    } else {
      assert s == s[0..];
    }
  }

  lemma RestIsQuoteFree(pre: string)
    requires QuoteFree(pre) && NextToken(pre).Some?
    ensures QuoteFree(NextToken(pre).value.rest)
  {
    SkipSpacesIsSuffix(pre);
  }

  /** So, whatever the words: a second word before the unit loses it, and so does
      a word grown together with it. */
  lemma UnitLosers<N>(f: NumFormat<N>, name: string, g: Geometry, phys: (N, N), word: string, second: string,
                      unit: string, rest: string)
    requires word != "" && SpaceFree(word) && QuoteFree(word)
    requires second != "" && !IsSpace(second[0]) && QuoteFree(second) && QuoteFree(unit) && QuoteFree(rest)
    ensures SgTail(f, name, g, phys, " " + (word + (" " + second)) + (Quoted(unit) + rest)).unit == ""
    ensures SgTail(f, name, g, phys, " " + (word + "") + (Quoted(unit) + rest)).unit == ""
  {
    OneWord(word, " " + second);
    assert (" " + second)[1] == second[0];
    UnitKeptIff(f, name, g, phys, " " + (word + (" " + second)), unit, rest);
    OneWord(word, "");
    UnitKeptIff(f, name, g, phys, " " + (word + ""), unit, rest);
  }

  lemma OneWord(word: string, r: string)
    requires word != "" && SpaceFree(word) && EndsWord(r)
    ensures OneWordApart(" " + (word + r)) <==> r != "" && AllBlank(r)
  {
    TokenRead(word, r);
  }

  /** Inputs: a unit behind the factor, one behind a word, one behind two. */
  lemma UnitExamples<N>(f: NumFormat<N>, name: string, g: Geometry, phys: (N, N))
    ensures SgTail(f, name, g, phys, " " + (Quoted("km h") + "")).unit == ""
    ensures SgTail(f, name, g, phys, " " + ("foo" + (" " + (Quoted("km h") + "")))).unit == "km h"
    ensures SgTail(f, name, g, phys, " " + ("[0|1]" + (" " + "foo ")) + (Quoted("km h") + "")).unit == ""
  {
    LeadingUnitIsLost(f, name, g, phys, "km h", "");
    UnitBehindAWordIsKept(f, name, g, phys, "foo", "km h", "");
    UnitLosers(f, name, g, phys, "[0|1]", "foo ", "km h", "");
  }
}
