// What the DBC parser makes of text at large: lines, blanks, tokens and numbers,
// stated in the characters themselves.
module DbcLaws {
  import opened Arith
  import opened BusTypes
  import opened DbcModel
  import opened DbcText
  import opened DbcParsing
  import opened DbcRoundTrip

  // ----- lines -----

  predicate Ended(text: string) {
    text == "" || text[|text| - 1] == '\n'
  }

  lemma FindOnly(s: string, i: nat)
    requires i < |s| && s[i] == '\n' && forall j | 0 <= j < i :: s[j] != '\n'
    ensures Find(s, '\n') == Some(i)
  {
    FindFirst(s[..i], '\n', s[i + 1..]);
    assert s == s[..i] + (['\n'] + s[i + 1..]);
  }

  lemma UnlinesCons(line: string, lines: seq<string>)
    ensures Unlines([line] + lines) == line + ("\n" + Unlines(lines))
  {
    assert ([line] + lines)[1..] == lines;
  }

  function Terminated(text: string): string {
    if Ended(text) then text else text + "\n"
  }

  lemma TerminatedSplit(text: string, i: nat)
    requires i < |text| && text[i] == '\n'
    ensures Terminated(text) == text[..i] + ("\n" + Terminated(text[i + 1..]))
  {
    var rest := text[i + 1..];
    assert text == text[..i] + ("\n" + rest);
    if rest != "" { assert rest[|rest| - 1] == text[|text| - 1]; }
  }

  /** The lines, each with its line break, give the text back; a last line
      without one counts as a line. */
  lemma {:induction false} LinesMakeUpTheText(text: string)
    ensures Unlines(Lines(text)) == Terminated(text)
    decreases |text|
  {
    if text != "" {
      match Find(text, '\n')
      case None =>
        assert text[|text| - 1] in text;
        UnlinesCons(text, []);
        assert [text] + [] == [text];
      case Some(i) =>
        LinesMakeUpTheText(text[i + 1..]);
        TerminatedSplit(text, i);
        UnlinesCons(text[..i], Lines(text[i + 1..]));
    }
  }

  /** And none of them holds a line break. */
  lemma {:induction false} LinesAreOneLine(text: string)
    ensures forall l | l in Lines(text) :: OneLine(l)
    decreases |text|
  {
    if text != "" {
      match Find(text, '\n')
      case None =>
      case Some(i) => LinesAreOneLine(text[i + 1..]);
    }
  }

  /** An unterminated last line is read like a terminated one. */
  lemma LastLineCounts(text: string)
    requires !Ended(text)
    ensures Lines(text) == Lines(text + "\n")
  {
    LinesMakeUpTheText(text);
    LinesAreOneLine(text);
    LinesOfUnlines(Lines(text));
  }

  lemma UnterminatedParses<N>(f: NumFormat<N>, text: string)
    requires !Ended(text)
    ensures ParseText(f, text) == ParseText(f, text + "\n")
  {
    LastLineCounts(text);
  }

  predicate EndsInOneBreak(text: string) {
    |text| >= 2 && text[|text| - 1] == '\n' && text[|text| - 2] != '\n'
  }

  lemma PrintIsTerminated<N(!new)>(f: NumFormat<N>, ms: seq<DbcMessage<N>>)
    requires ReadsBack(f) && Printable(ms) && ms != []
    ensures EndsInOneBreak(Print(f, ms))
  {
    PrintEndsInALine(f, ms);
    UnlinesLast(PrintLines(f, ms));
  }

  function WithoutLast(text: string): string {
    if text == "" then "" else text[..|text| - 1]
  }

  /** The round trip without the last line break. */
  lemma ParsePrintUnterminated<N(!new)>(f: NumFormat<N>, ms: seq<DbcMessage<N>>)
    requires ReadsBack(f) && Printable(ms) && ms != []
    ensures !Ended(WithoutLast(Print(f, ms))) && ParseText(f, WithoutLast(Print(f, ms))) == Parsed(ms, None)
  {
    PrintIsTerminated(f, ms);
    ParsePrint(f, ms);
    DropLast(f, Print(f, ms));
  }

  lemma DropLast<N>(f: NumFormat<N>, text: string)
    requires EndsInOneBreak(text)
    ensures !Ended(WithoutLast(text)) && ParseText(f, WithoutLast(text)) == ParseText(f, text)
  {
    assert text[..|text| - 1] + "\n" == text;
    UnterminatedParses(f, text[..|text| - 1]);
  }

  lemma {:induction false} UnlinesLast(lines: seq<string>)
    requires lines != [] && lines[|lines| - 1] != "" && OneLine(lines[|lines| - 1])
    ensures EndsInOneBreak(Unlines(lines))
  {
    if |lines| == 1 {
      var l := lines[0];
      assert Unlines(lines) == l + ("\n" + Unlines(lines[1..])) == l + "\n";
      assert l[|l| - 1] in l;
    } else {
      UnlinesLast(lines[1..]);
      var t := Unlines(lines[1..]);
      assert Unlines(lines) == (lines[0] + "\n") + t;
    }
  }

  lemma {:induction false} LastOfConcat(blocks: seq<seq<string>>)
    requires blocks != [] && forall i | 0 <= i < |blocks| :: blocks[i] != []
    ensures Concat(blocks) != []
    ensures var c, last := Concat(blocks), blocks[|blocks| - 1]; c[|c| - 1] == last[|last| - 1]
  {
    if |blocks| > 1 {
      LastOfConcat(blocks[1..]);
    } else {
      assert Concat(blocks) == blocks[0] + Concat(blocks[1..]) == blocks[0];
    }
  }

  lemma BlockEndsInALine<N(!new)>(f: NumFormat<N>, m: DbcMessage<N>)
    requires ReadsBack(f) && PrintableMessage(m)
    ensures var b := Block(f, m); b != [] && b[|b| - 1] != "" && OneLine(b[|b| - 1])
  {
    BlockOneLine(f, m);
    if m.signals == [] {
      assert Block(f, m) == [PrintBo(m)];
    } else {
      var n := |m.signals|;
      assert Block(f, m)[n] == PrintSg(f, m.signals[n - 1]);
    }
  }

  lemma PrintEndsInALine<N(!new)>(f: NumFormat<N>, ms: seq<DbcMessage<N>>)
    requires ReadsBack(f) && Printable(ms) && ms != []
    ensures var lines := PrintLines(f, ms);
            lines != [] && lines[|lines| - 1] != "" && OneLine(lines[|lines| - 1])
  {
    var blocks := seq(|ms|, i requires 0 <= i < |ms| => Block(f, ms[i]));
    forall i | 0 <= i < |blocks| ensures blocks[i] != [] {
      assert PrintableMessage(ms[i]);
      BlockEndsInALine(f, ms[i]);
    }
    LastOfConcat(blocks);
    assert PrintableMessage(ms[|ms| - 1]);
    BlockEndsInALine(f, ms[|ms| - 1]);
  }

  // ----- blanks around a line -----

  predicate Blanks(s: string) {
    forall i | 0 <= i < |s| :: s[i] == ' ' || s[i] == '\t' || s[i] == '\r' || s[i] == '\n'
  }

  lemma {:induction false} TrimLeftLaw(a: string, s: string)
    requires Blanks(a)
    ensures TrimLeft(a + s) == TrimLeft(s)
  {
    if a == "" {
      assert a + s == s;
    } else {
      assert (a + s)[1..] == a[1..] + s;
      TrimLeftLaw(a[1..], s);
    }
  }

  lemma {:induction false} TrimRightLaw(s: string, b: string)
    requires Blanks(b)
    ensures TrimRight(s + b) == TrimRight(s)
    decreases |b|
  {
    if b == "" {
      assert s + b == s;
    } else {
      assert (s + b)[..|s + b| - 1] == s + b[..|b| - 1];
      TrimRightLaw(s, b[..|b| - 1]);
    }
  }

  lemma {:induction false} TrimRightOfBlanks(b: string)
    requires Blanks(b)
    ensures TrimRight(b) == "" && TrimLeft(b) == ""
    decreases |b|
  {
    if b != "" {
      TrimRightOfBlanks(b[..|b| - 1]);
      TrimRightOfBlanks(b[1..]);
    }
  }

  /** Blanks, tabs, carriage returns and line feeds around a text are cut off,
      and nothing else is. */
  lemma TrimLaw(a: string, s: string, b: string)
    requires Blanks(a) && Blanks(b)
    requires s == "" || (!Blanks([s[0]]) && !Blanks([s[|s| - 1]]))
    ensures Trim(a + (s + b)) == s
  {
    TrimLeftLaw(a, s + b);
    if s == "" {
      assert s + b == b;
      TrimRightOfBlanks(b);
      assert TrimRight("") == "";
    } else {
      assert [s[0]][0] == s[0] && [s[|s| - 1]][0] == s[|s| - 1];
      assert (s + b)[0] == s[0];
      TrimRightLaw(s, b);
    }
  }

  /** So indentation and carriage returns do not change what a line means. */
  lemma BlanksDoNotMatter<N>(f: NumFormat<N>, ms: seq<DbcMessage<N>>, a: string, s: string, b: string)
    requires Blanks(a) && Blanks(b)
    requires s == "" || (!Blanks([s[0]]) && !Blanks([s[|s| - 1]]))
    ensures ParseLine(f, ms, a + (s + b)) == ParseLine(f, ms, s)
  {
    TrimLaw(a, s, b);
    TrimLaw("", s, "");
    assert "" + (s + "") == s;
  }

  // ----- tokens -----

  /** Whitespace of the C locale. */
  predicate White(c: char) {
    c == ' ' || c == '\t' || c == '\n' || c == '\r' || c as int == 11 || c as int == 12
  }

  predicate AllWhite(s: string) {
    forall i | 0 <= i < |s| :: White(s[i])
  }

  predicate NoneWhite(s: string) {
    forall i | 0 <= i < |s| :: !White(s[i])
  }

  lemma {:induction false} SkipLaw(a: string, s: string)
    requires AllWhite(a) && (s == "" || !White(s[0]))
    ensures SkipSpaces(a + s) == s
  {
    if a == "" {
      assert a + s == s;
    } else {
      assert (a + s)[1..] == a[1..] + s;
      SkipLaw(a[1..], s);
    }
  }

  /** Reading a word skips whitespace and takes what is up to the next one. */
  lemma TokenLaw(a: string, word: string, rest: string)
    requires AllWhite(a) && NoneWhite(word) && (rest == "" || White(rest[0]))
    ensures word != "" ==> NextToken(a + (word + rest)) == Some(Token(word, rest))
    ensures NextToken(a) == None
  {
    SkipLaw(a, "");
    assert a + "" == a;
    if word != "" {
      var s := word + rest;
      assert s[0] == word[0];
      SkipLaw(a, s);
      WordLengthIs(word, rest);
      assert s[..|word|] == word && s[|word|..] == rest;
    }
  }

  // ----- numbers -----

  lemma {:induction false} DigitsOnly(s: string, base: nat)
    ensures ReadDigits(s, base).Some? <==> forall i | 0 <= i < |s| :: DigitValue(s[i]) < base
    decreases |s|
  {
    if s != "" {
      DigitsOnly(s[..|s| - 1], base);
      assert forall i | 0 <= i < |s| - 1 :: s[..|s| - 1][i] == s[i];
    }
  }

  /** Digits of any base up to 16, in lower or upper case. */
  lemma DigitValues()
    ensures DigitValue('0') == 0 && DigitValue('1') == 1 && DigitValue('7') == 7 && DigitValue('9') == 9
    ensures DigitValue('a') == 10 && DigitValue('f') == 15 && DigitValue('A') == 10 && DigitValue('F') == 15
    ensures forall c: char :: DigitValue(c) < 16 <==> '0' <= c <= '9' || 'a' <= c <= 'f' || 'A' <= c <= 'F'
  {
  }

  function BaseDigit(d: nat, upper: bool): char
    requires d < 16
  {
    (if upper then "0123456789ABCDEF" else "0123456789abcdef")[d]
  }

  lemma BaseDigitReads(d: nat, upper: bool)
    requires d < 16
    ensures DigitValue(BaseDigit(d, upper)) == d
  {
  }

  /** `n` written in a base from 2 to 16. */
  function ShowBase(n: nat, base: nat, upper: bool): (s: string)
    requires 2 <= base <= 16
    ensures s != ""
    decreases n
  {
    if n < base then [BaseDigit(n, upper)] else
    QuotientSmaller(n, base);
    ShowBase(n / base, base, upper) + [BaseDigit(n % base, upper)]
  }

  lemma QuotientSmaller(n: nat, base: nat)
    requires 2 <= base <= n
    ensures n / base < n
  {
    DivMod(base, n);
    if n / base >= n { MulMonotone(2, base, n / base); }
  }

  lemma {:induction false} ShowBaseReads(n: nat, base: nat, upper: bool)
    requires 2 <= base <= 16
    ensures ReadDigits(ShowBase(n, base, upper), base) == Some(n)
    ensures forall i | 0 <= i < |ShowBase(n, base, upper)| :: DigitValue(ShowBase(n, base, upper)[i]) < 16
    decreases n
  {
    var s := ShowBase(n, base, upper);
    if n < base {
      BaseDigitReads(n, upper);
      assert s[..0] == "";
    } else {
      QuotientSmaller(n, base);
      ShowBaseReads(n / base, base, upper);
      BaseDigitReads(n % base, upper);
      assert s[..|s| - 1] == ShowBase(n / base, base, upper);
      DivMod(base, n);
    }
  }

  lemma PlainNumber(s: string)
    requires s != "" && '0' <= s[0] <= '9'
    ensures ParseU32(s) == match ReadPrefixed(s)
                           case None => None
                           case Some(v) => if v >= TWO_64 then None else Some(v % TWO_32)
  {
    assert SkipSpaces(s) == s;
  }

  /** Hexadecimal with 0x or 0X, octal with a leading 0, cut to 32 bits; past 64
      bits a number is refused. */
  lemma HexReads(n: nat, x: char, upper: bool)
    requires x == 'x' || x == 'X'
    ensures ParseU32("0" + ([x] + ShowBase(n, 16, upper))) ==
            if n < 0x1_0000_0000_0000_0000 then Some(n % 0x1_0000_0000) else None
  {
    ShowBaseReads(n, 16, upper);
    HexNumber(x, ShowBase(n, 16, upper), n);
  }

  lemma HexNumber(x: char, digits: string, n: nat)
    requires (x == 'x' || x == 'X') && digits != "" && DigitValue(digits[0]) < 16 && ReadDigits(digits, 16) == Some(n)
    ensures ParseU32("0" + ([x] + digits)) == if n < TWO_64 then Some(n % TWO_32) else None
  {
    var s := "0" + ([x] + digits);
    assert s[0] == '0' && s[1] == x && s[2] == digits[0] && s[2..] == digits;
    PlainNumber(s);
  }

  lemma OctalReads(n: nat)
    ensures ParseU32("0" + ShowBase(n, 8, false)) ==
            if n < 0x1_0000_0000_0000_0000 then Some(n % 0x1_0000_0000) else None
  {
    var digits := ShowBase(n, 8, false);
    var s := "0" + digits;
    ShowBaseReads(n, 8, false);
    DigitsOnly(digits, 8);
    LeadingZero(digits, 8);
    assert s[1] == digits[0];
    PlainNumber(s);
  }

  lemma {:induction false} LeadingZero(s: string, base: nat)
    requires base > 0
    ensures ReadDigits("0" + s, base) == ReadDigits(s, base)
    decreases |s|
  {
    var t := "0" + s;
    if s == "" {
      assert t[..0] == "" && t == "0";
      assert ReadDigits(t[..|t| - 1], base) == Some(0);
    } else {
      LeadingZero(s[..|s| - 1], base);
      assert t[..|t| - 1] == "0" + s[..|s| - 1];
    }
  }

  /** Decimal beyond 32 bits is cut, beyond 64 refused. */
  lemma DecimalReads(n: nat)
    ensures ParseU32(ShowNat(n)) == if n < 0x1_0000_0000_0000_0000 then Some(n % 0x1_0000_0000) else None
  {
    ReadPrefixedShow(n);
    PlainNumber(ShowNat(n));
  }

  /** A plus sign is skipped, a minus sign negates modulo 2^64. */
  lemma SignedReads(n: nat)
    ensures ParseU32("+" + ShowNat(n)) == if n < 0x1_0000_0000_0000_0000 then Some(n % 0x1_0000_0000) else None
    ensures ParseU32("-" + ShowNat(n)) ==
            if n < 0x1_0000_0000_0000_0000 then Some((0x1_0000_0000_0000_0000 - n) % 0x1_0000_0000) else None
  {
    ReadPrefixedShow(n);
    SignedNumber('+', ShowNat(n));
    SignedNumber('-', ShowNat(n));
    if n < TWO_64 { NegationCut(n); }
  }

  lemma SignedNumber(sign: char, s: string)
    requires sign == '+' || sign == '-'
    ensures ParseU32([sign] + s) == match ReadPrefixed(s)
                                    case None => None
                                    case Some(v) =>
                                      if v >= TWO_64 then None
                                      else if sign == '-' then Some((TWO_64 - v) % TWO_64 % TWO_32)
                                      else Some(v % TWO_32)
  {
    Signed(sign, s);
  }

  lemma Signed(sign: char, s: string)
    requires sign == '+' || sign == '-'
    ensures SkipSpaces([sign] + s) == [sign] + s && ([sign] + s)[1..] == s && ([sign] + s)[0] == sign
  {
  }

  lemma NegationCut(n: nat)
    requires n < TWO_64
    ensures (TWO_64 - n) % TWO_64 % TWO_32 == (TWO_64 - n) % TWO_32
  {
    if n == 0 {
      DivModUnique(TWO_64, TWO_64, 1, 0);
      DivModUnique(TWO_32, TWO_64, TWO_32, 0);
    } else {
      DivModUnique(TWO_64, TWO_64 - n, 0, TWO_64 - n);
    }
  }

  /** Nothing, or anything with a stray character behind sign and prefix, is
      refused. */
  lemma StrayCharacterRefused(s: string, i: nat)
    requires 3 <= i < |s| && DigitValue(s[i]) >= 16 && !White(s[0])
    ensures ParseU32(s) == None
    ensures ParseU32("") == None
  {
    assert SkipSpaces(s) == s;
    var body := if s[0] == '-' || s[0] == '+' then s[1..] else s;
    var at := if s[0] == '-' || s[0] == '+' then i - 1 else i;
    assert body[at] == s[i];
    DigitsOnly(body, 8);
    DigitsOnly(body, 10);
    if |body| > 2 {
      DigitsOnly(body[2..], 16);
      if at >= 2 { assert body[2..][at - 2] == s[i]; }
    }
  }

  // ----- geometry -----

  /** For any numbers that fit 32 bits: the start bit is cut to a byte, the length
      clamped to 64, `@0` is Intel order, a minus sign is signed. */
  lemma GeometryLaw(start: nat, len: nat, order: char, sign: char)
    requires start < TWO_32 && len < TWO_32
    ensures SgGeometry(ShowNat(start) + ("|" + (ShowNat(len) + ("@" + [order, sign])))) ==
            Ok(Geometry(start % 256, if len > 64 then 64 else len, order == '0', sign == '-'))
  {
    ShowNatPlain(start);
    ShowNatPlain(len);
    ParseU32Show(start);
    ParseU32Show(len);
    GeometryOf(ShowNat(start), ShowNat(len), [order, sign], start, len);
  }

  // ----- BO_ and SG_ lines -----

  /** A message name may have its colon glued on or standing apart. */
  lemma BoNameForms(name: string, rest: string, line: string)
    requires !EndsWithColon(name) && EndsWord(rest)
    ensures BoName(name + ":", rest, line) == Ok(Token(name, rest))
    ensures BoName(name, " " + (":" + rest), line) == Ok(Token(name, rest))
    ensures BoName(name, "", line) == Err(MalformedBo(line))
  {
    TokenRead(":", rest);
    NoToken();
    assert (name + ":")[..|name|] == name;
  }

  /** Without range and unit a signal has the range 0 to 0 and no unit. */
  lemma BareSignal<N>(f: NumFormat<N>, name: string, g: Geometry, phys: (N, N), blank: string)
    requires AllWhite(blank)
    ensures SgTail(f, name, g, phys, blank) ==
            Signal(name, g.startBit, g.length, phys.0, phys.1, f.zero, f.zero, "", g.isSigned, g.littleEndian)
  {
    TokenLaw(blank, "", "");
  }

  /** The first line that counts must open a message, and a message's payload has
      at most 64 bytes. */
  lemma RefusedLines<N>(f: NumFormat<N>, ms: seq<DbcMessage<N>>, rest: string, id: nat, name: string, dlc: nat)
    requires !IsBlank(if rest == "" then '_' else rest[|rest| - 1]) && rest != ""
    requires id < TWO_32 && 64 < dlc < TWO_32
    ensures ParseLine(f, [], "SG_ " + rest) == Parsed([], Some(SgBeforeBo))
    ensures BoFields<N>(ShowNat(id), name, ShowNat(dlc), "") == Err(BadBoDlc(ShowNat(dlc)))
  {
    var s := "SG_ " + rest;
    TrimExact(s);
    assert s[0] == 'S';
    ParseU32Show(id);
    ParseU32Show(dlc);
  }

  /** What a geometry token is refused for. */
  lemma GeometryWithoutMarks(geom: string)
    requires '|' !in geom || '@' !in geom
    ensures SgGeometry(geom) == Err(BadGeometry(geom))
  {
  }

  lemma GeometryOutOfOrder(a: string, b: string, rest: string)
    requires '|' !in a && '@' !in a && '|' !in b
    ensures var g := a + ("@" + (b + ("|" + rest))); SgGeometry(g) == Err(BadGeometry(g))
  {
    FindFirst(a, '@', b + ("|" + rest));
    FindFirst(a + ("@" + b), '|', rest);
    assert (a + ("@" + b)) + ("|" + rest) == a + ("@" + (b + ("|" + rest)));
  }

  lemma GeometryBadNumber(a: string, b: string, flags: string)
    requires '|' !in a && '@' !in a && '@' !in b && (ParseU32(a).None? || ParseU32(b).None?)
    ensures var g := a + ("|" + (b + ("@" + flags))); SgGeometry(g) == Err(BadStartLength(g))
  {
    GeometrySplits(a, b, flags);
  }

  lemma GeometryTooShort(a: string, b: string, flags: string)
    requires '|' !in a && '@' !in a && '@' !in b && ParseU32(a).Some? && ParseU32(b).Some? && |flags| < 2
    ensures var g := a + ("|" + (b + ("@" + flags))); SgGeometry(g) == Err(BadOrderSign(g))
  {
    GeometrySplits(a, b, flags);
  }

  /** And a factor token. */
  lemma FactorWithoutBrackets<N>(f: NumFormat<N>, phys: string)
    requires '(' !in phys || ')' !in phys
    ensures SgFactor(f, phys) == Err(BadFactor(phys))
  {
  }

  lemma FactorOutOfOrder<N>(f: NumFormat<N>, a: string, b: string, rest: string)
    requires ')' !in a && '(' !in a && '(' !in b
    ensures var p := a + (")" + (b + ("(" + rest))); SgFactor(f, p) == Err(BadFactor(p))
  {
    FindFirst(a, ')', b + ("(" + rest));
    FindFirst(a + (")" + b), '(', rest);
    assert (a + (")" + b)) + ("(" + rest) == a + (")" + (b + ("(" + rest)));
  }

  lemma FactorWithoutComma<N>(f: NumFormat<N>, a: string, rest: string)
    requires ')' !in a && ',' !in a
    ensures var p := "(" + (a + (")" + rest)); SgFactor(f, p) == Err(BadFactor(p))
  {
    var p := "(" + (a + (")" + rest));
    FindFirst("(" + a, ')', rest);
    assert ("(" + a) + (")" + rest) == p;
    assert p[0] == '(' && p[1..|a| + 1] == a;
  }

  /** A BO_ line with too few words, a bad identifier or a bad length. */
  lemma BoRefused<N>(idTok: string, name: string, dlcTok: string, blank: string)
    requires AllWhite(blank) && idTok != "" && NoneWhite(idTok)
    ensures BoLine<N>("BO_ " + blank) == Err(MalformedBo("BO_ " + blank))
    ensures BoLine<N>("BO_ " + (idTok + blank)) == Err(MalformedBo("BO_ " + (idTok + blank)))
    ensures ParseU32(idTok).None? ==> BoFields<N>(idTok, name, dlcTok, blank) == Err(BadBoId(idTok))
    ensures ParseU32(idTok).Some? && ParseU32(dlcTok).None? ==>
              BoFields<N>(idTok, name, dlcTok, blank) == Err(BadBoDlc(dlcTok))
  {
    assert ("BO_ " + blank)[4..] == blank && ("BO_ " + (idTok + blank))[4..] == idTok + blank;
    TokenLaw(blank, "", "");
    TokenLaw("", idTok, blank);
    assert "" + (idTok + blank) == idTok + blank;
  }

  /** What follows a signal's name must be a colon, or a multiplexer marker and
      then a colon. */
  lemma NameRefused(name: string, word: string, marker: string, other: string, rest: string, blank: string,
                    line: string)
    requires !EndsWithColon(name) && AllWhite(blank) && EndsWord(rest)
    requires word != "" && NoneWhite(word) && word != ":" && word != "M" && word[0] != 'm'
    requires marker == "M" || marker == "m0"
    requires other != "" && NoneWhite(other) && other != ":"
    ensures SgName(name, blank, line) == Err(MissingGeometry(line))
    ensures SgName(name, " " + (word + rest), line) == Err(UnexpectedToken(word))
    ensures SgName(name, " " + (marker + blank), line) == Err(MalformedMux(line))
    ensures SgName(name, " " + (marker + (" " + (other + rest))), line) == Err(MalformedMux(line))
  {
    TokenLaw(blank, "", "");
    SpaceFreeIs(word);
    SpaceFreeIs(other);
    TokenRead(word, rest);
    TokenRead(other, rest);
    TokenRead(marker, blank);
    TokenRead(marker, " " + (other + rest));
  }

  lemma SpaceFreeIs(s: string)
    ensures NoneWhite(s) <==> SpaceFree(s)
  {
  }

  /** A signal line that ends too early. */
  lemma SgCutShort<N>(f: NumFormat<N>, name: string, geom: string, blank: string, line: string)
    requires AllWhite(blank) && geom != "" && NoneWhite(geom)
    ensures SgLine(f, "SG_ " + blank) == Err(MalformedSg("SG_ " + blank))
    ensures SgBody(f, name, blank, line) == Err(MissingGeometry(line))
    ensures SgBody(f, name, geom + blank, line) ==
            match SgGeometry(geom) case Err(e) => Err(e) case Ok(_) => Err(MissingFactor(line))
  {
    assert ("SG_ " + blank)[4..] == blank;
    TokenLaw(blank, "", "");
    TokenLaw("", geom, blank);
    assert "" + (geom + blank) == geom + blank;
  }

  /** A line whose first four characters are not exactly a keyword and its blank
      does nothing: comments, empty lines, and longer keywords such as BO_TX_BU_. */
  lemma OtherKeywordsAreSkipped<N>(f: NumFormat<N>, ms: seq<DbcMessage<N>>, s: string)
    requires s == "" || (!Blanks([s[0]]) && !Blanks([s[|s| - 1]]))
    requires |s| < 4 || (s[..4] != "BO_ " && s[..4] != "SG_ ")
    ensures ParseLine(f, ms, s) == Parsed(ms, None)
  {
    TrimLaw("", s, "");
    assert "" + (s + "") == s;
  }
}
