/**
  Strings by the grammar of section 7 of RFC 8259, in bytes: how each character
  may be written and what it means, apart from how source/external/cJSON.c reads
  and writes strings. Every such string is read as what it means.
 */
module JsonCharacters {
  import opened Options
  import opened Sequences
  import opened Octets
  import opened JsonStrings

  type Nibble = x: int | 0 <= x < 16

  /** A hexadecimal digit, in either case. */
  datatype Digit = Digit(value: Nibble, upper: bool)

  datatype Hex = Hex(a: Digit, b: Digit, c: Digit, d: Digit)

  /** A byte as it stands, a backslash and a letter, or one or two UTF-16 code units. */
  datatype Char = Plain(b: Byte) | Short(letter: Byte) | Unit(unit: Hex) | Pair(high: Hex, low: Hex)

  function DigitCode(d: Digit): Byte {
    if d.value < 10 then 0x30 + d.value else if d.upper then 0x41 + d.value - 10 else 0x61 + d.value - 10
  }

  function HexBytes(h: Hex): (r: Bytes)
    ensures |r| == 4
  {
    [DigitCode(h.a), DigitCode(h.b), DigitCode(h.c), DigitCode(h.d)]
  }

  function Code(h: Hex): (v: nat)
    ensures v < 0x10000
  {
    h.a.value as nat * 4096 + h.b.value as nat * 256 + h.c.value as nat * 16 + h.d.value
  }

  /** The standard leaves no control character unescaped; the parser takes them. */
  predicate CharOk(c: Char, strict: bool) {
    match c
    case Plain(b) => b != 0x22 && b != 0x5C && (strict ==> b >= 0x20)
    case Short(letter) => letter in [0x22, 0x5C, 0x2F, 0x62, 0x66, 0x6E, 0x72, 0x74]
    case Unit(h) => !(0xD800 <= Code(h) <= 0xDFFF)
    case Pair(h, l) => 0xD800 <= Code(h) <= 0xDBFF && 0xDC00 <= Code(l) <= 0xDFFF
  }

  function CharText(c: Char): (r: Bytes)
    ensures r != []
  {
    match c
    case Plain(b) => [b]
    case Short(letter) => [0x5C, letter]
    case Unit(h) => [0x5C, 0x75] + HexBytes(h)
    case Pair(h, l) => [0x5C, 0x75] + HexBytes(h) + ([0x5C, 0x75] + HexBytes(l))
  }

  /** The UTF-8 form of the character meant. */
  function CharMeaning(c: Char): Bytes
    requires CharOk(c, false)
  {
    match c
    case Plain(b) => [b]
    case Short(letter) =>
      [if letter == 0x62 then 0x08 else if letter == 0x66 then 0x0C else if letter == 0x6E then 0x0A
       else if letter == 0x72 then 0x0D else if letter == 0x74 then 0x09 else letter]
    case Unit(h) => Utf8(Code(h))
    case Pair(h, l) => Utf8(0x10000 + (Code(h) - 0xD800) * 0x400 + (Code(l) - 0xDC00))
  }

  predicate CharsOk(cs: seq<Char>, strict: bool) {
    forall i :: 0 <= i < |cs| ==> CharOk(cs[i], strict)
  }

  /** The characters, followed by the rest of the text. */
  function CharsOn(cs: seq<Char>, rest: Bytes): Bytes {
    if cs == [] then rest else CharText(cs[0]) + CharsOn(cs[1..], rest)
  }

  function CharsMeaning(cs: seq<Char>): Bytes
    requires CharsOk(cs, false)
  {
    if cs == [] then [] else CharMeaning(cs[0]) + CharsMeaning(cs[1..])
  }

  // ---------- one character ----------

  lemma DigitReads(d: Digit)
    ensures HexValue(DigitCode(d)) == d.value && DigitCode(d) != QUOTE && DigitCode(d) != BACKSLASH
  {
  }

  lemma HexReads(h: Hex, tail: Bytes)
    ensures ParseHex4(HexBytes(h) + tail) == Code(h)
  {
    hide DigitCode, HexValue;
    DigitReads(h.a);
    DigitReads(h.b);
    DigitReads(h.c);
    DigitReads(h.d);
  }

  /** One code unit that is not a surrogate, with n bytes before the end of the string. */
  lemma UnitReads(h: Hex, tail: Bytes, n: nat)
    requires CharOk(Unit(h), false) && n < |tail|
    ensures Utf16Literal(CharText(Unit(h)) + tail, 6 + n) == Literal(6, CharMeaning(Unit(h)))
  {
    hide Utf8, ParseHex4, HexBytes, Code;
    var s := CharText(Unit(h)) + tail;
    assert s[2..] == HexBytes(h) + tail;
    HexReads(h, tail);
  }

  lemma PairReads(h: Hex, l: Hex, tail: Bytes, n: nat)
    requires CharOk(Pair(h, l), false) && n < |tail|
    ensures Utf16Literal(CharText(Pair(h, l)) + tail, 12 + n) == Literal(12, CharMeaning(Pair(h, l)))
  {
    hide Utf8, ParseHex4, HexBytes, Code;
    var low := [0x5C, 0x75] + HexBytes(l) + tail;
    var s := CharText(Pair(h, l)) + tail;
    assert s == [0x5C, 0x75] + HexBytes(h) + low;
    assert s[2..] == HexBytes(h) + low;
    assert s[8..] == HexBytes(l) + tail;
    assert s[6] == 0x5C && s[7] == 0x75;
    HexReads(h, low);
    HexReads(l, tail);
    SurrogateParts(Code(h), Code(l));
  }

  lemma SurrogateParts(h: nat, l: nat)
    requires 0xD800 <= h <= 0xDBFF && 0xDC00 <= l <= 0xDFFF
    ensures h % 1024 * 1024 + l % 1024 == (h - 0xD800) * 0x400 + (l - 0xDC00)
  {
  }

  /** The filling scan takes a character in one round, and writes what it means. */
  lemma CharSteps(c: Char, tail: Bytes, n: nat)
    requires CharOk(c, false) && n < |tail|
    ensures Step(CharText(c) + tail, |CharText(c)| + n) == Literal(|CharText(c)|, CharMeaning(c))
  {
    hide Utf16Literal, Utf8, HexBytes, Code;
    var s := CharText(c) + tail;
    match c
    case Plain(b) => assert s[0] == b;
    case Short(letter) => assert s[0] == 0x5C && s[1] == letter;
    case Unit(h) =>
      assert s[0] == 0x5C && s[1] == 0x75;
      UnitReads(h, tail, n);
    case Pair(h, l) =>
      assert s[0] == 0x5C && s[1] == 0x75;
      PairReads(h, l, tail, n);
  }

  lemma CharUnescapes(c: Char, tail: Bytes, n: nat)
    requires CharOk(c, false) && n < |tail|
    ensures Unescape(CharText(c) + tail, |CharText(c)| + n) == Prepend(CharMeaning(c), Unescape(tail, n))
  {
    hide Step, CharText, CharMeaning;
    CharSteps(c, tail, n);
    UnescapeNone(tail);
    assert (CharText(c) + tail)[|CharText(c)|..] == tail;
  }

  lemma UnescapeNone(s: Bytes)
    requires s != []
    ensures Unescape(s, 0) == Some([])
  {
  }

  /** The end the sizing scan finds, moved by n bytes. */
  predicate Moved(r: Scan, r': Scan, n: nat) {
    (r.End? <==> r'.End?) && (r.End? ==> r.at == n + r'.at)
  }

  /** Where the sizing scan of s from p on ends, against that of what comes n bytes later. */
  lemma ScanMoves(s: Bytes, p: nat)
    requires p <= |s|
    ensures Moved(ScanEnd(s, p), ScanEnd(s[p..], 0), p)
  {
    hide ScanEnd;
    ScanShift(s, p, 0);
    ScanForward(s, p);
  }

  lemma ScanForward(s: Bytes, p: nat)
    ensures ScanEnd(s, p).End? ==> ScanEnd(s, p).at >= p
  {
  }

  lemma DigitsPass(s: Bytes, p: nat, h: Hex)
    requires p + 4 <= |s| && s[p..p + 4] == HexBytes(h)
    ensures ScanEnd(s, p) == ScanEnd(s, p + 4)
  {
    hide ScanEnd, DigitCode;
    var u := s[p..p + 4];
    assert s[p] == u[0] && s[p + 1] == u[1] && s[p + 2] == u[2] && s[p + 3] == u[3];
    DigitReads(h.a);
    DigitReads(h.b);
    DigitReads(h.c);
    DigitReads(h.d);
    ScanRound(s, p);
    ScanRound(s, p + 1);
    ScanRound(s, p + 2);
    ScanRound(s, p + 3);
  }

  /** A backslash and the byte after it. */
  lemma EscapePasses(s: Bytes, p: nat)
    requires p + 2 <= |s| && s[p] == BACKSLASH
    ensures Moved(ScanEnd(s, p), ScanEnd(s, p + 2), 0)
  {
    hide ScanEnd;
    ScanRound(s, p);
  }

  lemma UnitPasses(s: Bytes, p: nat, h: Hex)
    requires p + 6 <= |s| && s[p..p + 6] == [0x5C, 0x75] + HexBytes(h)
    ensures Moved(ScanEnd(s, p), ScanEnd(s, p + 6), 0)
  {
    hide ScanEnd, HexBytes;
    assert s[p] == s[p..p + 6][0];
    assert s[p + 2..p + 6] == s[p..p + 6][2..];
    EscapePasses(s, p);
    DigitsPass(s, p + 2, h);
  }

  /** The sizing scan passes over a character and stops where it would have stopped without it. */
  lemma CharPasses(c: Char, tail: Bytes)
    requires CharOk(c, false)
    ensures Moved(ScanEnd(CharText(c) + tail, 0), ScanEnd(tail, 0), |CharText(c)|)
  {
    hide ScanEnd, CharText;
    var s := CharText(c) + tail;
    assert s[|CharText(c)|..] == tail;
    ScanMoves(s, |CharText(c)|);
    CharEnds(c, tail);
  }

  lemma CharEnds(c: Char, tail: Bytes)
    requires CharOk(c, false)
    ensures var s := CharText(c) + tail; Moved(ScanEnd(s, 0), ScanEnd(s, |CharText(c)|), 0)
  {
    hide ScanEnd, HexBytes, Code;
    var s := CharText(c) + tail;
    match c
    case Plain(b) => ScanRound(s, 0);
    case Short(letter) => EscapePasses(s, 0);
    case Unit(h) => OnePasses(h, tail);
    case Pair(h, l) => PairPasses(h, l, tail);
  }

  lemma OnePasses(h: Hex, tail: Bytes)
    ensures var s := CharText(Unit(h)) + tail; Moved(ScanEnd(s, 0), ScanEnd(s, 6), 0)
  {
    hide ScanEnd, HexBytes;
    var s := CharText(Unit(h)) + tail;
    assert s[0..6] == CharText(Unit(h));
    UnitPasses(s, 0, h);
  }

  lemma PairPasses(h: Hex, l: Hex, tail: Bytes)
    ensures var s := CharText(Pair(h, l)) + tail; Moved(ScanEnd(s, 0), ScanEnd(s, 12), 0)
  {
    hide ScanEnd, HexBytes;
    var first, second := [0x5C, 0x75] + HexBytes(h), [0x5C, 0x75] + HexBytes(l);
    var s := first + second + tail;
    assert s[0..6] == first && s[6..12] == second;
    UnitPasses(s, 0, h);
    UnitPasses(s, 6, l);
  }

  // ---------- strings ----------

  function CharsLength(cs: seq<Char>): nat {
    if cs == [] then 0 else |CharText(cs[0])| + CharsLength(cs[1..])
  }

  lemma {:induction false} CharsParts(cs: seq<Char>, rest: Bytes)
    ensures |CharsOn(cs, rest)| == CharsLength(cs) + |rest| && CharsOn(cs, rest)[CharsLength(cs)..] == rest
  {
    hide CharText;
    if cs != [] {
      CharsParts(cs[1..], rest);
      var head, tail := CharText(cs[0]), CharsOn(cs[1..], rest);
      assert (head + tail)[|head| + CharsLength(cs[1..])..] == tail[CharsLength(cs[1..])..];
    }
  }

  lemma {:induction false} CharsPass(cs: seq<Char>, rest: Bytes)
    requires CharsOk(cs, false)
    ensures Moved(ScanEnd(CharsOn(cs, rest), 0), ScanEnd(rest, 0), CharsLength(cs))
  {
    hide ScanEnd, CharText, CharOk;
    if cs != [] {
      CharsPass(cs[1..], rest);
      CharPasses(cs[0], CharsOn(cs[1..], rest));
    }
  }

  lemma {:induction false} CharsUnescape(cs: seq<Char>, rest: Bytes, n: nat)
    requires CharsOk(cs, false) && n < |rest|
    ensures CharsLength(cs) + n < |CharsOn(cs, rest)|
    ensures Unescape(CharsOn(cs, rest), CharsLength(cs) + n) == Prepend(CharsMeaning(cs), Unescape(rest, n))
  {
    hide Unescape, CharText, CharMeaning, CharOk;
    CharsParts(cs, rest);
    var last := Unescape(rest, n);
    if cs == [] {
      assert last.Some? ==> [] + last.value == last.value;
    } else {
      var head, tail := CharMeaning(cs[0]), CharsMeaning(cs[1..]);
      CharsUnescape(cs[1..], rest, n);
      CharsParts(cs[1..], rest);
      CharUnescapes(cs[0], CharsOn(cs[1..], rest), CharsLength(cs[1..]) + n);
      assert last.Some? ==> head + (tail + last.value) == head + tail + last.value;
    }
  }

  /** A quotation mark, the characters and a quotation mark. */
  function StringOn(cs: seq<Char>, rest: Bytes): (r: Bytes)
    ensures r != [] && r[0] == 0x22
  {
    [0x22] + CharsOn(cs, [0x22] + rest)
  }

  /** Every string of the grammar is read as what it means. */
  lemma StringParses(cs: seq<Char>, rest: Bytes)
    requires CharsOk(cs, false) && Terminated(rest)
    ensures Terminated(StringOn(cs, rest)) && ParseString(StringOn(cs, rest)) == Ok(CharsMeaning(cs), rest)
  {
    hide ScanEnd, Unescape, CharsOn, CharsLength, CharOk, CharsMeaning;
    var end := [0x22] + rest;
    var t, n := CharsOn(cs, end), CharsLength(cs);
    var s := StringOn(cs, rest);
    CharsParts(cs, end);
    assert s[1..] == t;
    ScanMoves(s, 1);
    CharsPass(cs, end);
    ScanRound(end, 0);
    CharsUnescape(cs, end, 0);
    UnescapeNone(end);
    assert CharsMeaning(cs) + [] == CharsMeaning(cs);
    assert s[n + 2..] == t[n..][1..];
    assert t[n..][|end| - 1] == t[|t| - 1];
  }

  // ---------- what is refused ----------

  /** Behind characters of the grammar and a backslash, the closing quote is not the next byte. */
  lemma EndBehind(cs: seq<Char>, bad: Bytes) returns (k: nat)
    requires CharsOk(cs, false) && |bad| >= 2 && bad[0] == BACKSLASH
    ensures var r := ScanEnd([0x22] + CharsOn(cs, bad), 1);
            r.End? ==> 2 <= k < |bad| && r.at == 1 + CharsLength(cs) + k
  {
    hide ScanEnd, CharsOn, CharsLength, CharOk;
    var t := CharsOn(cs, bad);
    var s := [0x22] + t;
    assert s[1..] == t;
    ScanMoves(s, 1);
    CharsPass(cs, bad);
    EscapePasses(bad, 0);
    EndWithin(bad, 2);
    k := if ScanEnd(bad, 0).End? then ScanEnd(bad, 0).at else 0;
  }

  lemma EndWithin(s: Bytes, p: nat)
    ensures ScanEnd(s, p).End? ==> p <= ScanEnd(s, p).at < |s|
  {
  }

  /** After characters of the grammar, a round the filling scan refuses makes the string unreadable. */
  lemma StepRefused(cs: seq<Char>, bad: Bytes)
    requires CharsOk(cs, false) && Terminated([0x22] + CharsOn(cs, bad)) && |bad| >= 2 && bad[0] == BACKSLASH
    requires forall n :: 2 <= n < |bad| ==> Step(bad, n).BadLiteral?
    ensures ParseString([0x22] + CharsOn(cs, bad)).Fail?
  {
    hide ScanEnd, Unescape, Step, CharsOn, CharsLength, CharOk, CharsMeaning, ParseString, Terminated;
    var t := CharsOn(cs, bad);
    var k := EndBehind(cs, bad);
    if ScanEnd([0x22] + t, 1).End? {
      CharsUnescape(cs, bad, k);
      UnescapeBad(bad, k);
    }
    Refused(t);
  }

  lemma Refused(t: Bytes)
    requires Terminated([0x22] + t)
    requires ScanEnd([0x22] + t, 1).End? ==> ScanEnd([0x22] + t, 1).at <= |t| && Unescape(t, ScanEnd([0x22] + t, 1).at - 1).None?
    ensures ParseString([0x22] + t).Fail?
  {
    hide ScanEnd, Unescape;
    assert ([0x22] + t)[1..] == t;
  }

  lemma UnescapeBad(s: Bytes, n: nat)
    requires 0 < n < |s| && Step(s, n).BadLiteral?
    ensures Unescape(s, n).None?
  {
    hide Step;
  }

  /** A letter that is no escape, wherever it stands. */
  lemma BadLetter(cs: seq<Char>, letter: Byte, more: Bytes)
    requires CharsOk(cs, false) && Terminated(more)
    requires letter !in [0x22, 0x5C, 0x2F, 0x62, 0x66, 0x6E, 0x72, 0x74, 0x75]
    ensures var s := [0x22] + CharsOn(cs, [0x5C, letter] + more); Terminated(s) && ParseString(s).Fail?
  {
    hide CharsOn, CharOk, ParseString;
    var bad := [0x5C, letter] + more;
    CharsParts(cs, bad);
    assert CharsOn(cs, bad)[CharsLength(cs)..][|bad| - 1] == 0;
    StepRefused(cs, bad);
  }

  /** A surrogate without its partner: a low one, or a high one not followed by a low one. */
  lemma LoneSurrogate(cs: seq<Char>, h: Hex, more: Bytes)
    requires CharsOk(cs, false) && Terminated(more)
    requires 0xDC00 <= Code(h) <= 0xDFFF || (0xD800 <= Code(h) <= 0xDBFF && more[0] != 0x5C)
    ensures var s := [0x22] + CharsOn(cs, [0x5C, 0x75] + HexBytes(h) + more); Terminated(s) && ParseString(s).Fail?
  {
    hide CharsOn, CharOk, ParseString, ParseHex4, HexBytes, Code;
    var bad := [0x5C, 0x75] + HexBytes(h) + more;
    CharsParts(cs, bad);
    assert CharsOn(cs, bad)[CharsLength(cs)..][|bad| - 1] == 0;
    assert bad[2..] == HexBytes(h) + more;
    HexReads(h, more);
    assert bad[6] == more[0];
    StepRefused(cs, bad);
  }

  // ---------- the printer's strings ----------

  /** How the printer writes a byte. */
  function Form(b: Byte): (c: Char)
    ensures CharOk(c, true)
  {
    if b == 0x22 || b == 0x5C then Short(b)
    else if b == 0x08 then Short(0x62)
    else if b == 0x0C then Short(0x66)
    else if b == 0x0A then Short(0x6E)
    else if b == 0x0D then Short(0x72)
    else if b == 0x09 then Short(0x74)
    else if b < 0x20 then Unit(Hex(Digit(0, false), Digit(0, false), Digit(b / 16, false), Digit(b % 16, false)))
    else Plain(b)
  }

  function Forms(s: Bytes): (cs: seq<Char>)
    ensures |cs| == |s| && CharsOk(cs, true)
  {
    seq(|s|, i requires 0 <= i < |s| => Form(s[i]))
  }

  lemma FormIs(b: Byte)
    ensures CharText(Form(b)) == EscapedByte(b) && CharMeaning(Form(b)) == [b]
  {
    hide HexDigit, DigitCode;
    if b < 32 {
      SmallUnit(b);
    }
  }

  lemma DigitSame(v: Nibble)
    ensures DigitCode(Digit(v, false)) == HexDigit(v)
  {
  }

  /** A control character's code unit. */
  lemma SmallUnit(b: Byte)
    requires b < 32
    ensures var h := Hex(Digit(0, false), Digit(0, false), Digit(b / 16, false), Digit(b % 16, false));
            HexBytes(h) == Hex4(b) && Code(h) == b
  {
    hide HexDigit, DigitCode;
    DigitSame(0);
    DigitSame(b / 16);
    DigitSame(b % 16);
    assert b / 4096 == 0 && b / 256 % 16 == 0 && b / 16 % 16 == b / 16;
  }

  lemma {:induction false} FormsAre(s: Bytes, rest: Bytes)
    ensures CharsOn(Forms(s), rest) == Escaped(s) + rest && CharsMeaning(Forms(s)) == s
  {
    hide CharText, CharMeaning, EscapedByte, Form;
    if s != [] {
      FormIs(s[0]);
      FormsAre(s[1..], rest);
      assert Forms(s)[1..] == Forms(s[1..]);
      Assoc(EscapedByte(s[0]), Escaped(s[1..]), rest);
    }
  }

  /** What the printer writes for a string is a string of the standard's grammar that means it. */
  lemma StringTextIs(s: Bytes, rest: Bytes)
    ensures StringText(s) + rest == StringOn(Forms(s), rest)
    ensures CharsOk(Forms(s), true) && CharsOk(Forms(s), false) && CharsMeaning(Forms(s)) == s
  {
    hide CharsOn, CharsMeaning, Escaped;
    FormsAre(s, [QUOTE] + rest);
    assert [QUOTE] + Escaped(s) + [QUOTE] + rest == [QUOTE] + (Escaped(s) + ([QUOTE] + rest));
  }

  /** Every string is read back from its printed form, whatever follows. */
  lemma StringRoundTrip(s: Bytes, rest: Bytes)
    requires Terminated(rest)
    ensures Terminated(StringText(s) + rest) && ParseString(StringText(s) + rest) == Ok(s, rest)
  {
    hide StringText, Forms, ParseString, CharOk;
    StringTextIs(s, rest);
    StringParses(Forms(s), rest);
  }
}
