// The DBC parser (software/src/protocol/dbc/dbc_parser.cpp), token by token.
// `@0` is Intel and `@1` Motorola order, as the source and its tests have it.
module DbcParsing {
  import opened BusTypes
  import opened DbcModel
  import opened DbcText

  datatype DbcError =
    | MalformedBo(line: string)
    | BadBoId(tok: string)
    | BadBoDlc(tok: string)
    | SgBeforeBo
    | MalformedSg(line: string)
    | MalformedMux(line: string)
    | UnexpectedToken(tok: string)
    | MissingGeometry(line: string)
    | BadGeometry(tok: string)
    | BadStartLength(tok: string)
    | BadOrderSign(tok: string)
    | MissingFactor(line: string)
    | BadFactor(tok: string)

  datatype Result<+T> = Ok(value: T) | Err(error: DbcError)

  // ----- BO_ lines -----

  predicate EndsWithColon(s: string) {
    s != "" && s[|s| - 1] == ':'
  }

  /** Lines 108-116: the name, without its colon, and the rest of the stream. */
  function BoName(name: string, rest: string, line: string): Result<Token> {
    if EndsWithColon(name) then Ok(Token(name[..|name| - 1], rest))
    else match NextToken(rest)
      case None => Err(MalformedBo(line))
      case Some(colon) => if colon.word == ":" then Ok(Token(name, colon.rest)) else Err(MalformedBo(line))
  }

  function BoFields<N>(idTok: string, name: string, dlcTok: string, rest: string): Result<DbcMessage<N>> {
    match ParseU32(idTok)
    case None => Err(BadBoId(idTok))
    case Some(id) =>
      match ParseU32(dlcTok)
      case None => Err(BadBoDlc(dlcTok))
      case Some(dlc) =>
        if dlc > MAX_PAYLOAD then Err(BadBoDlc(dlcTok)) else
        var node := NextToken(rest);
        Ok(DbcMessage(id, name, dlc, if node.Some? then node.value.word else "", []))
  }

  /** `parse_bo` on a line starting with "BO_ ". */
  function BoLine<N>(line: string): (r: Result<DbcMessage<N>>)
    requires |line| >= 4
    ensures r.Ok? ==> r.value.id < TWO_32 && r.value.dlc <= MAX_PAYLOAD && r.value.signals == []
  {
    match NextToken(line[4..])
    case None => Err(MalformedBo(line))
    case Some(id) =>
      match NextToken(id.rest)
      case None => Err(MalformedBo(line))
      case Some(name) =>
        match BoName(name.word, name.rest, line)
        case Err(e) => Err(e)
        case Ok(named) =>
          match NextToken(named.rest)
          case None => Err(MalformedBo(line))
          case Some(dlc) => BoFields(id.word, named.word, dlc.word, dlc.rest)
  }

  // ----- SG_ lines -----

  /** Lines 155-175: name, optional multiplexer marker and colon. */
  function SgName(name: string, rest: string, line: string): Result<Token> {
    if EndsWithColon(name) then Ok(Token(name[..|name| - 1], rest))
    else match NextToken(rest)
      case None => Err(MissingGeometry(line))
      case Some(tok) =>
        if tok.word == ":" then Ok(Token(name, tok.rest))
        else if tok.word == "M" || (tok.word != "" && tok.word[0] == 'm') then
          match NextToken(tok.rest)
          case None => Err(MalformedMux(line))
          case Some(colon) => if colon.word == ":" then Ok(Token(name, colon.rest)) else Err(MalformedMux(line))
        else Err(UnexpectedToken(tok.word))
  }

  /** The three ways to write a signal's name mean the same: a separate colon,
      a glued one, and a multiplexer marker in between. */
  lemma NameForms(name: string, marker: string, rest: string, line: string)
    requires !EndsWithColon(name) && EndsWord(rest)
    requires marker == "M" || (marker != "" && marker[0] == 'm' && SpaceFree(marker))
    ensures SgName(name, " " + (":" + rest), line) == Ok(Token(name, rest))
    ensures SgName(name + ":", rest, line) == Ok(Token(name, rest))
    ensures SgName(name, " " + (marker + (" " + (":" + rest))), line) == Ok(Token(name, rest))
  {
    TokenRead(":", rest);
    TokenRead(marker, " " + (":" + rest));
    assert (name + ":")[..|name|] == name;
  }

  datatype Geometry = Geometry(startBit: nat, length: nat, littleEndian: bool, isSigned: bool)

  /** Lines 185-207: `<start>|<len>@<order><sign>`, the start cut to 8 bits and
      the length clamped to 64. */
  function SgGeometry(geom: string): (r: Result<Geometry>)
    ensures r.Ok? ==> r.value.startBit < TWO_8 && r.value.length <= 64
  {
    var bar, at := Find(geom, '|'), Find(geom, '@');
    if bar.None? || at.None? || at.value < bar.value then Err(BadGeometry(geom)) else
    assert at.value != bar.value;
    SgNumbers(geom, at.value, ParseU32(geom[..bar.value]), ParseU32(geom[bar.value + 1..at.value]))
  }

  function SgNumbers(geom: string, at: nat, start: Option<nat>, len: Option<nat>): (r: Result<Geometry>)
    requires at < |geom|
    ensures r.Ok? ==> r.value.startBit < TWO_8 && r.value.length <= 64
  {
    if start.None? || len.None? then Err(BadStartLength(geom))
    else if at + 2 >= |geom| then Err(BadOrderSign(geom))
    else Ok(Geometry(start.value % TWO_8, if len.value > 64 then 64 else len.value,
                     geom[at + 1] == '0', geom[at + 2] == '-'))
  }

  /** Two numbers around a separator. */
  function ReadPair<N>(f: NumFormat<N>, inner: string, separator: char): Option<(N, N)> {
    match Find(inner, separator)
    case None => None
    case Some(i) =>
      match f.read(inner[..i])
      case None => None
      case Some(a) =>
        match f.read(inner[i + 1..])
        case None => None
        case Some(b) => Some((a, b))
  }

  /** Lines 214-227: `(<factor>,<offset>)`. */
  function SgFactor<N>(f: NumFormat<N>, phys: string): Result<(N, N)> {
    var lp, rp := Find(phys, '('), Find(phys, ')');
    if lp.None? || rp.None? || rp.value <= lp.value then Err(BadFactor(phys)) else
    match ReadPair(f, phys[lp.value + 1..rp.value], ',')
    case None => Err(BadFactor(phys))
    case Some(p) => Ok(p)
  }

  /** Lines 231-246: `[<min>|<max>]`; anything else is ignored. */
  function SgRange<N>(f: NumFormat<N>, range: string): Option<(N, N)> {
    if range == "" || range[0] != '[' then None else
    match Find(range, ']')
    case None => None
    case Some(rb) => ReadPair(f, range[1..rb], '|')
  }

  /** Lines 249-257: `"<unit>"` at the start of the remainder. */
  function SgUnit(remainder: string): string {
    var rest := Trim(remainder);
    if rest == "" || rest[0] != '"' then "" else
    match Find(rest[1..], '"')
    case None => ""
    case Some(q) => rest[1..][..q]
  }

  /** The optional parts.  The token after the factor is consumed whether or
      not it is a range, so a unit is only found behind one. */
  function SgTail<N>(f: NumFormat<N>, name: string, g: Geometry, phys: (N, N), rest: string): Signal<N> {
    var tok := NextToken(rest);
    var range := if tok.Some? then SgRange(f, tok.value.word) else None;
    Signal(name, g.startBit, g.length, phys.0, phys.1,
           if range.Some? then range.value.0 else f.zero, if range.Some? then range.value.1 else f.zero,
           if tok.Some? then SgUnit(tok.value.rest) else "",
           g.isSigned, g.littleEndian)
  }

  function SgBody<N>(f: NumFormat<N>, name: string, rest: string, line: string): (r: Result<Signal<N>>)
    ensures r.Ok? ==> r.value.startBit < TWO_8 && r.value.length <= 64
  {
    match NextToken(rest)
    case None => Err(MissingGeometry(line))
    case Some(geom) =>
      match SgGeometry(geom.word)
      case Err(e) => Err(e)
      case Ok(g) =>
        match NextToken(geom.rest)
        case None => Err(MissingFactor(line))
        case Some(phys) =>
          match SgFactor(f, phys.word)
          case Err(e) => Err(e)
          case Ok(p) => Ok(SgTail(f, name, g, p, phys.rest))
  }

  /** `parse_sg` on a line starting with "SG_ ". */
  function SgLine<N>(f: NumFormat<N>, line: string): (r: Result<Signal<N>>)
    requires |line| >= 4
    ensures r.Ok? ==> r.value.startBit < TWO_8 && r.value.length <= 64
  {
    match NextToken(line[4..])
    case None => Err(MalformedSg(line))
    case Some(name) =>
      match SgName(name.word, name.rest, line)
      case Err(e) => Err(e)
      case Ok(named) => SgBody(f, named.word, named.rest, line)
  }

  // ----- the file -----

  /** Messages stored so far, and the error that stopped the parse, if any. */
  datatype Parsed<N> = Parsed(messages: seq<DbcMessage<N>>, error: Option<DbcError>)

  function AddSignal<N>(ms: seq<DbcMessage<N>>, s: Signal<N>): seq<DbcMessage<N>>
    requires ms != []
  {
    ms[|ms| - 1 := ms[|ms| - 1].(signals := ms[|ms| - 1].signals + [s])]
  }

  /** One line of the loop (lines 76-93). */
  function ParseLine<N>(f: NumFormat<N>, ms: seq<DbcMessage<N>>, line: string): Parsed<N> {
    var t := Trim(line);
    if "BO_ " <= t then
      match BoLine(t)
      case Err(e) => Parsed(ms, Some(e))
      case Ok(m) => Parsed(ms + [m], None)
    else if "SG_ " <= t then
      if ms == [] then Parsed(ms, Some(SgBeforeBo)) else
      match SgLine(f, t)
      case Err(e) => Parsed(ms, Some(e))
      case Ok(s) => Parsed(AddSignal(ms, s), None)
    else Parsed(ms, None)
  }

  type LineStep<!N> = (seq<DbcMessage<N>>, string) -> Parsed<N>

  /** A line step over the lines in order, up to the first that fails. */
  function Fold<N>(step: LineStep<N>, ms: seq<DbcMessage<N>>, lines: seq<string>): Parsed<N>
    decreases |lines|
  {
    if lines == [] then Parsed(ms, None) else
    var p := step(ms, lines[0]);
    if p.error.Some? then p else Fold(step, p.messages, lines[1..])
  }

  function StepOf<N>(f: NumFormat<N>): LineStep<N> {
    (ms: seq<DbcMessage<N>>, line: string) => ParseLine(f, ms, line)
  }

  function ParseLines<N>(f: NumFormat<N>, ms: seq<DbcMessage<N>>, lines: seq<string>): Parsed<N> {
    Fold(StepOf(f), ms, lines)
  }

  function ParseText<N>(f: NumFormat<N>, text: string): Parsed<N> {
    ParseLines(f, [], Lines(text))
  }

  /** `std::istringstream`: what has not been consumed yet.  A failed read
      leaves a stream that fails for good. */
  class TokenStream {
    var rest: string

    constructor (text: string)
      ensures rest == text
    {
      rest := text;
    }

    /** `iss >> word`. */
    method Next() returns (word: Option<string>)
      modifies this
      ensures match NextToken(old(rest))
              case None => word == None && rest == ""
              case Some(t) => word == Some(t.word) && rest == t.rest
    {
      match NextToken(rest)
      case None => word, rest := None, "";
      case Some(t) => word, rest := Some(t.word), t.rest;
    }
  }

  class DbcParser<N> {
    const f: NumFormat<N>
    var messages: seq<DbcMessage<N>>

    constructor (f: NumFormat<N>)
      ensures this.f == f && messages == []
    {
      this.f := f;
      messages := [];
    }

    method Clear()
      modifies this
      ensures messages == []
    {
      messages := [];
    }

    /** Lines 108-116. */
    method ReadBoName(iss: TokenStream, first: string, line: string) returns (name: Result<string>)
      modifies iss
      ensures match BoName(first, old(iss.rest), line)
              case Err(e) => name == Err(e)
              case Ok(named) => name == Ok(named.word) && iss.rest == named.rest
    {
      if EndsWithColon(first) {
        return Ok(first[..|first| - 1]);
      }
      var colon := iss.Next();
      if colon != Some(":") {
        return Err(MalformedBo(line));
      }
      return Ok(first);
    }

    /** Lines 122-138. */
    method StoreBo(iss: TokenStream, idTok: string, name: string, dlcTok: string) returns (error: Option<DbcError>)
      modifies this, iss
      ensures match BoFields<N>(idTok, name, dlcTok, old(iss.rest))
              case Err(e) => error == Some(e) && messages == old(messages)
              case Ok(m) => error == None && messages == old(messages) + [m]
    {
      var id := ParseU32(idTok);
      if id.None? {
        return Some(BadBoId(idTok));
      }
      var dlc := ParseU32(dlcTok);
      if dlc.None? || dlc.value > MAX_PAYLOAD {
        return Some(BadBoDlc(dlcTok));
      }
      var m := DbcMessage<N>.DbcMessage(id.value, name, dlc.value, "", []);
      var node := iss.Next();
      if node.Some? {
        m := m.(txNode := node.value);
      }
      messages := messages + [m];
      return None;
    }

    method ParseBo(line: string) returns (error: Option<DbcError>)
      requires |line| >= 4
      modifies this
      ensures match BoLine<N>(line)
              case Err(e) => error == Some(e) && messages == old(messages)
              case Ok(m) => error == None && messages == old(messages) + [m]
    {
      var iss := new TokenStream(line[4..]);
      var idTok := iss.Next();
      if idTok.None? {
        return Some(MalformedBo(line));
      }
      var nameTok := iss.Next();
      if nameTok.None? {
        return Some(MalformedBo(line));
      }
      var name := ReadBoName(iss, nameTok.value, line);
      if name.Err? {
        return Some(name.error);
      }
      var dlcTok := iss.Next();
      if dlcTok.None? {
        return Some(MalformedBo(line));
      }
      error := StoreBo(iss, idTok.value, name.value, dlcTok.value);
    }

    /** Lines 155-175. */
    method ReadSgName(iss: TokenStream, first: string, line: string) returns (name: Result<string>)
      modifies iss
      ensures match SgName(first, old(iss.rest), line)
              case Err(e) => name == Err(e)
              case Ok(named) => name == Ok(named.word) && iss.rest == named.rest
    {
      if EndsWithColon(first) {
        return Ok(first[..|first| - 1]);
      }
      var tok := iss.Next();
      if tok.None? {
        return Err(MissingGeometry(line));
      }
      if tok.value == ":" {
        return Ok(first);
      }
      if tok.value == "M" || (tok.value != "" && tok.value[0] == 'm') {
        var colon := iss.Next();
        if colon != Some(":") {
          return Err(MalformedMux(line));
        }
        return Ok(first);
      }
      return Err(UnexpectedToken(tok.value));
    }

    /** Lines 229-259: range and unit are optional; the signal is stored. */
    method StoreSg(iss: TokenStream, name: string, g: Geometry, phys: (N, N))
      requires messages != []
      modifies this, iss
      ensures messages == AddSignal(old(messages), SgTail(f, name, g, phys, old(iss.rest)))
    {
      var sig := Signal(name, g.startBit, g.length, phys.0, phys.1, f.zero, f.zero, "", g.isSigned, g.littleEndian);
      var range := iss.Next();
      if range.Some? {
        var limits := SgRange(f, range.value);
        if limits.Some? {
          sig := sig.(minValue := limits.value.0, maxValue := limits.value.1);
        }
      }
      sig := sig.(unit := SgUnit(iss.rest));
      iss.rest := "";
      messages := AddSignal(messages, sig);
    }

    method ParseSg(line: string) returns (error: Option<DbcError>)
      requires |line| >= 4 && messages != []
      modifies this
      ensures match SgLine(f, line)
              case Err(e) => error == Some(e) && messages == old(messages)
              case Ok(s) => error == None && messages == AddSignal(old(messages), s)
    {
      var iss := new TokenStream(line[4..]);
      var nameTok := iss.Next();
      if nameTok.None? {
        return Some(MalformedSg(line));
      }
      var name := ReadSgName(iss, nameTok.value, line);
      if name.Err? {
        return Some(name.error);
      }
      error := ParseSgBody(iss, name.value, line);
    }

    /** Lines 180-260. */
    method ParseSgBody(iss: TokenStream, name: string, line: string) returns (error: Option<DbcError>)
      requires messages != []
      modifies this, iss
      ensures match SgBody(f, name, old(iss.rest), line)
              case Err(e) => error == Some(e) && messages == old(messages)
              case Ok(s) => error == None && messages == AddSignal(old(messages), s)
    {
      var geom := iss.Next();
      if geom.None? {
        return Some(MissingGeometry(line));
      }
      var g := SgGeometry(geom.value);
      if g.Err? {
        return Some(g.error);
      }
      var phys := iss.Next();
      if phys.None? {
        return Some(MissingFactor(line));
      }
      var p := SgFactor(f, phys.value);
      if p.Err? {
        return Some(p.error);
      }
      StoreSg(iss, name, g.value, p.value);
      error := None;
    }

    /** The body of the line loop (lines 76-93). */
    method ParseOne(line: string) returns (error: Option<DbcError>)
      modifies this
      ensures Parsed(messages, error) == ParseLine(f, old(messages), line)
    {
      var t := Trim(line);
      if t == "" || "//" <= t {
        assert t != "" ==> t[0] == '/';
        return None;
      }
      if "BO_ " <= t {
        error := ParseBo(t);
      } else if "SG_ " <= t {
        if messages == [] {
          return Some(SgBeforeBo);
        }
        error := ParseSg(t);
      } else {
        error := None;
      }
    }

    method Parse(text: string) returns (error: Option<DbcError>)
      modifies this
      ensures Parsed(messages, error) == ParseText(f, text)
    {
      Clear();
      var rest := text;
      while rest != ""
        invariant ParseText(f, text) == ParseLines(f, messages, Lines(rest))
        decreases |rest|
      {
        var line;
        ghost var pending := Lines(rest);
        var end := Find(rest, '\n');
        match end {
          case None => line, rest := rest, "";
          case Some(i) => line, rest := rest[..i], rest[i + 1..];
        }
        assert pending[0] == line && pending[1..] == Lines(rest);
        error := ParseOne(line);
        if error.Some? {
          return;
        }
      }
      error := None;
    }

    /** The first message with this identifier. */
    method FindById(id: nat) returns (found: Option<DbcMessage<N>>)
      ensures found.None? <==> forall m | m in messages :: m.id != id
      ensures found.Some? ==> exists i | 0 <= i < |messages| ::
                                && messages[i] == found.value && messages[i].id == id
                                && forall j | 0 <= j < i :: messages[j].id != id
    {
      var i := 0;
      while i < |messages|
        invariant 0 <= i <= |messages|
        invariant forall j | 0 <= j < i :: messages[j].id != id
      {
        if messages[i].id == id {
          return Some(messages[i]);
        }
        i := i + 1;
      }
      return None;
    }
  }

  // ----- what every parse keeps -----

  predicate InBounds<N>(m: DbcMessage<N>) {
    && m.id < 0x1_0000_0000 && m.dlc <= 64
    && (forall i | 0 <= i < |m.signals| :: m.signals[i].startBit < 256 && m.signals[i].length <= 64)
  }

  ghost predicate AllInBounds<N>(ms: seq<DbcMessage<N>>) {
    forall i | 0 <= i < |ms| :: InBounds(ms[i])
  }

  lemma AddSignalKeepsBounds<N>(ms: seq<DbcMessage<N>>, s: Signal<N>)
    requires ms != [] && AllInBounds(ms) && s.startBit < TWO_8 && s.length <= 64
    ensures AllInBounds(AddSignal(ms, s))
  {
    assert InBounds(ms[|ms| - 1]);
  }

  lemma LineKeepsBounds<N>(f: NumFormat<N>, ms: seq<DbcMessage<N>>, line: string)
    requires AllInBounds(ms)
    ensures AllInBounds(ParseLine(f, ms, line).messages)
  {
    var t := Trim(line);
    if "BO_ " <= t {
    } else if "SG_ " <= t && ms != [] && SgLine(f, t).Ok? {
      AddSignalKeepsBounds(ms, SgLine(f, t).value);
    }
  }

  ghost predicate KeepsBounds<N(!new)>(step: LineStep<N>) {
    forall ms: seq<DbcMessage<N>>, line: string :: AllInBounds(ms) ==> AllInBounds(step(ms, line).messages)
  }

  lemma {:induction false} FoldKeepsBounds<N(!new)>(step: LineStep<N>, ms: seq<DbcMessage<N>>, lines: seq<string>)
    requires KeepsBounds(step) && AllInBounds(ms)
    ensures AllInBounds(Fold(step, ms, lines).messages)
    decreases |lines|
  {
    if lines != [] {
      FoldKeepsBounds(step, step(ms, lines[0]).messages, lines[1..]);
    }
  }

  /** Whatever the text, stored payload lengths are at most 64 bytes, signal
      lengths at most 64 bits, start bits one byte. */
  lemma ParseKeepsBounds<N(!new)>(f: NumFormat<N>, text: string)
    ensures AllInBounds(ParseText(f, text).messages)
  {
    forall ms: seq<DbcMessage<N>>, line: string | AllInBounds(ms)
      ensures AllInBounds(StepOf(f)(ms, line).messages)
    {
      LineKeepsBounds(f, ms, line);
    }
    FoldKeepsBounds(StepOf(f), [], Lines(text));
  }

  /** Blank lines, comments and other keywords. */
  predicate Skippable(line: string) {
    var t := Trim(line);
    !("BO_ " <= t) && !("SG_ " <= t)
  }

  lemma {:induction false} FoldConcat<N>(step: LineStep<N>, ms: seq<DbcMessage<N>>, a: seq<string>, b: seq<string>)
    ensures var p := Fold(step, ms, a);
            Fold(step, ms, a + b) == if p.error.Some? then p else Fold(step, p.messages, b)
    decreases |a|
  {
    if a == [] {
      assert a + b == b;
    } else {
      assert (a + b)[1..] == a[1..] + b;
      FoldConcat(step, step(ms, a[0]).messages, a[1..], b);
    }
  }

  lemma {:induction false} FoldSkips<N>(step: LineStep<N>, ms: seq<DbcMessage<N>>, skip: seq<string>)
    requires forall l | l in skip :: step(ms, l) == Parsed(ms, None)
    ensures Fold(step, ms, skip) == Parsed(ms, None)
    decreases |skip|
  {
    if skip != [] {
      assert skip[0] in skip;
      FoldSkips(step, ms, skip[1..]);
    }
  }

  /** Inserting or deleting skippable lines anywhere changes nothing: neither
      the messages stored nor whether and how the parse fails. */
  lemma SkippableLinesDoNotMatter<N>(f: NumFormat<N>, a: seq<string>, skip: seq<string>, b: seq<string>)
    requires forall l | l in skip :: Skippable(l)
    requires forall l | l in a + skip + b :: OneLine(l)
    ensures ParseText(f, Unlines(a + skip + b)) == ParseText(f, Unlines(a + b))
  {
    var step := StepOf(f);
    LinesOfUnlines(a + skip + b);
    LinesOfUnlines(a + b);
    FoldConcat(step, [], a + skip, b);
    FoldConcat(step, [], a, skip);
    FoldConcat(step, [], a, b);
    FoldSkips(step, Fold(step, [], a).messages, skip);
  }

  lemma {:induction false} FoldFailure<N>(step: LineStep<N>, ms: seq<DbcMessage<N>>, lines: seq<string>)
      returns (i: nat)
    requires Fold(step, ms, lines).error.Some?
    ensures i < |lines| && Fold(step, ms, lines[..i]).error == None
    ensures Fold(step, ms, lines) == step(Fold(step, ms, lines[..i]).messages, lines[i])
    decreases |lines|
  {
    var p := step(ms, lines[0]);
    if p.error.Some? {
      i := 0;
    } else {
      var j := FoldFailure(step, p.messages, lines[1..]);
      i := j + 1;
      assert lines[..i][1..] == lines[1..][..j];
    }
  }

  lemma FailedLineStoresNothing<N>(f: NumFormat<N>, ms: seq<DbcMessage<N>>, line: string)
    requires ParseLine(f, ms, line).error.Some?
    ensures ParseLine(f, ms, line).messages == ms
  {
  }

  /** On failure the stored messages are exactly the parse of the lines before
      the failing one. */
  lemma FailureKeepsThePrefix<N>(f: NumFormat<N>, text: string) returns (i: nat)
    requires ParseText(f, text).error.Some?
    ensures i < |Lines(text)|
    ensures ParseLines(f, [], Lines(text)[..i]) == Parsed(ParseText(f, text).messages, None)
    ensures ParseLine(f, ParseText(f, text).messages, Lines(text)[i]).error == ParseText(f, text).error
  {
    i := FoldFailure(StepOf(f), [], Lines(text));
    FailedLineStoresNothing(f, ParseLines(f, [], Lines(text)[..i]).messages, Lines(text)[i]);
  }
}
