// The text handling the DBC parser rests on: whitespace, tokens of an input
// stream, lines, and the standard library's number readers.
module DbcText {
  import opened Arith
  import opened BusTypes

  /** `isspace` in the C locale. */
  predicate IsSpace(c: char) {
    c == ' ' || 9 <= c as int <= 13
  }

  predicate SpaceFree(s: string) {
    forall i | 0 <= i < |s| :: !IsSpace(s[i])
  }

  /** The set `trim` strips. */
  predicate IsBlank(c: char) {
    c == ' ' || c == '\t' || c == '\r' || c == '\n'
  }

  function TrimLeft(s: string): string {
    if s != "" && IsBlank(s[0]) then TrimLeft(s[1..]) else s
  }

  function TrimRight(s: string): string {
    if s != "" && IsBlank(s[|s| - 1]) then TrimRight(s[..|s| - 1]) else s
  }

  function Trim(s: string): string {
    TrimRight(TrimLeft(s))
  }

  lemma TrimExact(s: string)
    requires s != "" && !IsBlank(s[0]) && !IsBlank(s[|s| - 1])
    ensures Trim(s) == s && Trim(" " + s) == s
  {
    assert (" " + s)[1..] == s;
  }

  // ----- tokens: `iss >> word` -----

  /** A token and what is left of the stream. */
  datatype Token = Token(word: string, rest: string)

  function SkipSpaces(s: string): string {
    if s != "" && IsSpace(s[0]) then SkipSpaces(s[1..]) else s
  }

  function WordLength(s: string): (n: nat)
    ensures n <= |s| && SpaceFree(s[..n]) && (n < |s| ==> IsSpace(s[n]))
  {
    if s == "" || IsSpace(s[0]) then 0 else
    assert forall i | 0 < i < |s| :: s[i] == s[1..][i - 1];
    1 + WordLength(s[1..])
  }

  function NextToken(s: string): Option<Token> {
    var t := SkipSpaces(s);
    if t == "" then None else Some(Token(t[..WordLength(t)], t[WordLength(t)..]))
  }

  predicate EndsWord(rest: string) {
    rest == "" || IsSpace(rest[0])
  }

  lemma {:induction false} WordLengthIs(word: string, rest: string)
    requires SpaceFree(word) && EndsWord(rest)
    ensures WordLength(word + rest) == |word|
  {
    if word == "" {
      assert word + rest == rest;
    } else {
      assert (word + rest)[1..] == word[1..] + rest;
      WordLengthIs(word[1..], rest);
    }
  }

  /** Reading a printed word, with or without a blank before it. */
  lemma TokenRead(word: string, rest: string)
    requires word != "" && SpaceFree(word) && EndsWord(rest)
    ensures NextToken(word + rest) == Some(Token(word, rest))
    ensures NextToken(" " + (word + rest)) == Some(Token(word, rest))
  {
    var s := word + rest;
    assert s[0] == word[0];
    assert (" " + s)[1..] == s;
    WordLengthIs(word, rest);
    assert s[..|word|] == word && s[|word|..] == rest;
  }

  lemma NoToken()
    ensures NextToken("") == None
  {
  }

  // ----- searching -----

  /** `s.find(c)`. */
  function Find(s: string, c: char): (r: Option<nat>)
    ensures r.Some? ==> r.value < |s| && s[r.value] == c && c !in s[..r.value]
    ensures r.None? ==> c !in s
  {
    if s == "" then None
    else if s[0] == c then Some(0)
    else match Find(s[1..], c)
      case None => None
      case Some(i) =>
        assert s[..i + 1] == [s[0]] + s[1..][..i];
        Some(i + 1)
  }

  lemma {:induction false} FindFirst(before: string, c: char, after: string)
    requires c !in before
    ensures Find(before + ([c] + after), c) == Some(|before|)
  {
    if before != "" {
      assert (before + ([c] + after))[1..] == before[1..] + ([c] + after);
      FindFirst(before[1..], c, after);
    }
  }

  // ----- lines: `std::getline` -----

  function Lines(text: string): seq<string>
    decreases |text|
  {
    if text == "" then [] else
    match Find(text, '\n')
    case None => [text]
    case Some(i) => [text[..i]] + Lines(text[i + 1..])
  }

  function Unlines(lines: seq<string>): string {
    if lines == [] then "" else lines[0] + ("\n" + Unlines(lines[1..]))
  }

  ghost predicate OneLine(s: string) {
    '\n' !in s
  }

  lemma {:induction false} LinesOfUnlines(lines: seq<string>)
    requires forall l | l in lines :: OneLine(l)
    ensures Lines(Unlines(lines)) == lines
    decreases |lines|
  {
    if lines != [] {
      var line, rest := lines[0], Unlines(lines[1..]);
      assert line in lines && forall l | l in lines[1..] :: l in lines;
      LinesOfUnlines(lines[1..]);
      FindFirst(line, '\n', rest);
      var text := line + (['\n'] + rest);
      assert text == Unlines(lines) && text[..|line|] == line && text[|line| + 1..] == rest;
    }
  }

  // ----- numbers: `std::stoul(tok, &pos, 0)` with pos == tok.size() -----

  /** The value of a digit, or 99. */
  function DigitValue(c: char): nat {
    if '0' <= c <= '9' then c as nat - '0' as nat
    else if 'a' <= c <= 'f' then c as nat - 'a' as nat + 10
    else if 'A' <= c <= 'F' then c as nat - 'A' as nat + 10
    else 99
  }

  /** All of `s` as digits of the base, most significant first. */
  function ReadDigits(s: string, base: nat): Option<nat>
    decreases |s|
  {
    if s == "" then Some(0) else
    var last := DigitValue(s[|s| - 1]);
    match ReadDigits(s[..|s| - 1], base)
    case None => None
    case Some(v) => if last < base then Some(v * base + last) else None
  }

  predicate HexPrefixed(s: string) {
    |s| > 2 && s[0] == '0' && (s[1] == 'x' || s[1] == 'X') && DigitValue(s[2]) < 16
  }

  /** Digits with the base taken from the prefix; `None` when nothing, or not
      everything, is consumed. */
  function ReadPrefixed(s: string): Option<nat> {
    if s == "" then None
    else if HexPrefixed(s) then ReadDigits(s[2..], 16)
    else if s[0] == '0' then ReadDigits(s, 8)
    else ReadDigits(s, 10)
  }

  /** `parse_u32`: a 64-bit `unsigned long`, a minus sign negating modulo 2^64,
      cut to 32 bits. */
  function ParseU32(tok: string): (r: Option<nat>)
    ensures r.Some? ==> r.value < TWO_32
  {
    var t := SkipSpaces(tok);
    var signed := t != "" && (t[0] == '-' || t[0] == '+');
    match ReadPrefixed(if signed then t[1..] else t)
    case None => None
    case Some(v) =>
      if v >= TWO_64 then None
      else if signed && t[0] == '-' then Some((TWO_64 - v) % TWO_64 % TWO_32)
      else Some(v % TWO_32)
  }

  function DigitChar(d: nat): char
    requires d < 10
  {
    ('0' as int + d) as char
  }

  function ShowNat(n: nat): (s: string)
    ensures s != "" && forall i | 0 <= i < |s| :: '0' <= s[i] <= '9'
    ensures n > 0 ==> s[0] != '0'
  {
    if n < 10 then [DigitChar(n)] else ShowNat(n / 10) + [DigitChar(n % 10)]
  }

  lemma DigitOfChar(d: nat)
    requires d < 10
    ensures DigitValue(DigitChar(d)) == d
  {
  }

  lemma {:induction false} ShowNatReads(n: nat)
    ensures ReadDigits(ShowNat(n), 10) == Some(n)
  {
    var s := ShowNat(n);
    DigitOfChar(n % 10);
    if n < 10 {
      assert s[..0] == "";
    } else {
      ShowNatReads(n / 10);
      assert s[..|s| - 1] == ShowNat(n / 10);
    }
  }

  lemma ReadPrefixedShow(n: nat)
    ensures ReadPrefixed(ShowNat(n)) == Some(n)
  {
    var s := ShowNat(n);
    ShowNatReads(n);
    assert |s| > 1 ==> '0' <= s[1] <= '9';
    if n == 0 {
      assert s == "0" && s[..0] == "";
      assert ReadDigits(s[..0], 8) == Some(0);
    }
  }

  /** Printing and reading a number. */
  lemma ParseU32Show(n: nat)
    requires n < TWO_32
    ensures ParseU32(ShowNat(n)) == Some(n)
  {
    var s := ShowNat(n);
    assert '0' <= s[0] <= '9';
    assert SkipSpaces(s) == s;
    ReadPrefixedShow(n);
    DivModUnique(TWO_32, n, 0, n);
  }

  lemma ShowNatPlain(n: nat)
    ensures SpaceFree(ShowNat(n))
    ensures '|' !in ShowNat(n) && '@' !in ShowNat(n) && '\n' !in ShowNat(n)
  {
  }

  /** The reader and writer of factors, offsets and ranges: `read` stands for
      `std::stod` consuming the whole token, `write` for any printing. */
  datatype NumFormat<!N> = NumFormat(read: string -> Option<N>, write: N -> string, zero: N)

  /** Characters with a meaning in a signal line. */
  predicate IsPunctuation(c: char) {
    c == '(' || c == ')' || c == ',' || c == '[' || c == ']' || c == '|' || c == '"'
  }

  predicate PlainWord(s: string) {
    s != "" && forall i | 0 <= i < |s| :: !IsSpace(s[i]) && !IsPunctuation(s[i])
  }

  ghost predicate ReadsBack<N(!new)>(f: NumFormat<N>) {
    forall n: N :: f.read(f.write(n)) == Some(n) && PlainWord(f.write(n))
  }
}
