/**
  String literals of source/external/cJSON.c: escaping on output, and on input
  the scan that sizes the buffer followed by the scan that fills it.
 */
module JsonStrings {
  import opened Options
  import opened Octets

  const QUOTE: Byte := 34
  const SLASH: Byte := 47
  const BACKSLASH: Byte := 92

  ghost predicate NulFree(s: Bytes) {
    forall i :: 0 <= i < |s| ==> s[i] != 0
  }

  // ---------- hexadecimal and Unicode ----------

  /** parse_hex4: zero when one of the four bytes is no digit. */
  function ParseHex4(s: Bytes): (h: nat)
    requires |s| >= 4
  {
    var a, b, c, d := HexValue(s[0]), HexValue(s[1]), HexValue(s[2]), HexValue(s[3]);
    if a < 0 || b < 0 || c < 0 || d < 0 then 0 else ((a * 16 + b) * 16 + c) * 16 + d
  }

  lemma Hex4Bound(s: Bytes)
    requires |s| >= 4
    ensures ParseHex4(s) < 0x10000
  {
  }

  /** Four digits, as the conversion %04x prints a value below 2 to the 16. */
  function Hex4(v: nat): (r: Bytes)
    requires v < 0x10000
    ensures |r| == 4
  {
    [HexDigit(v / 4096), HexDigit(v / 256 % 16), HexDigit(v / 16 % 16), HexDigit(v % 16)]
  }

  lemma HexDigitValue(d: nat)
    requires d < 16
    ensures HexValue(HexDigit(d)) == d
  {
  }

  /** A 16-bit number from its four hexadecimal digits, the highest first. */
  lemma HexDigits(v: nat)
    requires v < 0x10000
    ensures v / 4096 < 16 && ((v / 4096 * 16 + v / 256 % 16) * 16 + v / 16 % 16) * 16 + v % 16 == v
  {
    var a, b, c := v / 16, v / 256, v / 4096;
    assert b == a / 16;
    assert c == b / 16;
    assert b == c * 16 + b % 16;
    assert a == b * 16 + a % 16;
  }

  lemma Hex4RoundTrip(v: nat, tail: Bytes)
    requires v < 0x10000
    ensures ParseHex4(Hex4(v) + tail) == v
  {
    hide HexDigit, HexValue;
    HexDigits(v);
    HexDigitValue(v / 4096);
    HexDigitValue(v / 256 % 16);
    HexDigitValue(v / 16 % 16);
    HexDigitValue(v % 16);
  }

  /** The bytes utf16_literal_to_utf8 writes for a code point. */
  function Utf8(cp: nat): (r: Bytes)
    requires cp <= 0x10FFFF
    ensures 1 <= |r| <= 4 && (cp < 0x10000 ==> |r| <= 3)
  {
    if cp < 0x80 then [cp]
    else if cp < 0x800 then [0xC0 + cp / 64, 0x80 + cp % 64]
    else if cp < 0x10000 then [0xE0 + cp / 4096, 0x80 + cp / 64 % 64, 0x80 + cp % 64]
    else [0xF0 + cp / 262144, 0x80 + cp / 4096 % 64, 0x80 + cp / 64 % 64, 0x80 + cp % 64]
  }

  function Bits(b: Byte, mark: int): int {
    b - mark
  }

  predicate Continuation(b: Byte) {
    0x80 <= b < 0xC0
  }

  /** The table of section 3 of RFC 3629, read from bytes to code point; -1 for a byte sequence it does not list. */
  function Utf8Value(s: Bytes): int {
    if |s| == 1 && s[0] < 0x80 then s[0]
    else if |s| == 2 && 0xC0 <= s[0] < 0xE0 && Continuation(s[1]) then
      Bits(s[0], 0xC0) * 64 + Bits(s[1], 0x80)
    else if |s| == 3 && 0xE0 <= s[0] < 0xF0 && Continuation(s[1]) && Continuation(s[2]) then
      Bits(s[0], 0xE0) * 4096 + Bits(s[1], 0x80) * 64 + Bits(s[2], 0x80)
    else if |s| == 4 && 0xF0 <= s[0] < 0xF8 && Continuation(s[1]) && Continuation(s[2]) && Continuation(s[3]) then
      Bits(s[0], 0xF0) * 262144 + Bits(s[1], 0x80) * 4096 + Bits(s[2], 0x80) * 64 + Bits(s[3], 0x80)
    else -1
  }

  /** Every code point is written in the form the standard gives it. */
  lemma Utf8IsStandard(cp: nat)
    requires cp <= 0x10FFFF
    ensures Utf8Value(Utf8(cp)) == cp
    ensures |Utf8(cp)| == (if cp < 0x80 then 1 else if cp < 0x800 then 2 else if cp < 0x10000 then 3 else 4)
  {
    assert cp / 64 == cp / 4096 * 64 + cp / 64 % 64;
    assert cp / 4096 == cp / 262144 * 64 + cp / 4096 % 64;
  }

  datatype Literal = BadLiteral | Literal(length: nat, bytes: Bytes)

  /** utf16_literal_to_utf8: s starts at the backslash and has n bytes before the end of the string. */
  function Utf16Literal(s: Bytes, n: nat): (r: Literal)
    requires n <= |s|
    ensures r.Literal? ==> r.length <= n && (r.length == 6 || r.length == 12) && 2 * |r.bytes| <= r.length
  {
    if n < 6 then BadLiteral
    else
      var first := ParseHex4(s[2..]);
      Hex4Bound(s[2..]);
      if 0xDC00 <= first <= 0xDFFF then BadLiteral
      else if 0xD800 <= first <= 0xDBFF then
        if n - 6 < 6 || s[6] != BACKSLASH || s[7] != 117 then BadLiteral
        else
          var second := ParseHex4(s[8..]);
          if second < 0xDC00 || second > 0xDFFF then BadLiteral
          else Literal(12, Utf8(0x10000 + first % 1024 * 1024 + second % 1024))
      else Literal(6, Utf8(first))
  }

  /** A code unit in the form backslash, u, four digits. */
  function UnitText(v: nat): (r: Bytes)
    requires v < 0x10000
    ensures |r| == 6 && r[0] == BACKSLASH && r[1] == 117
  {
    [BACKSLASH, 117] + Hex4(v)
  }

  /** The JSON literal of a Unicode scalar value, as section 7 of RFC 8259 spells it. */
  function ScalarText(cp: nat): Bytes
    requires cp <= 0x10FFFF
  {
    if cp < 0x10000 then UnitText(cp)
    else UnitText(0xD800 + (cp - 0x10000) / 1024) + UnitText(0xDC00 + (cp - 0x10000) % 1024)
  }

  lemma UnitTextReads(v: nat, tail: Bytes)
    requires v < 0x10000
    ensures ParseHex4((UnitText(v) + tail)[2..]) == v
  {
    hide ParseHex4, Hex4;
    assert (UnitText(v) + tail)[2..] == Hex4(v) + tail;
    Hex4RoundTrip(v, tail);
  }

  lemma PairDecodes(high: nat, low: nat, tail: Bytes)
    requires 0xD800 <= high <= 0xDBFF && 0xDC00 <= low <= 0xDFFF
    ensures Utf16Literal(UnitText(high) + UnitText(low) + tail, 12) ==
            Literal(12, Utf8(0x10000 + high % 1024 * 1024 + low % 1024))
  {
    hide Utf8, ParseHex4, Hex4, UnitText;
    var s := UnitText(high) + UnitText(low) + tail;
    assert s == UnitText(high) + (UnitText(low) + tail);
    UnitTextReads(high, UnitText(low) + tail);
    UnitTextReads(low, tail);
    assert s[8..] == (UnitText(low) + tail)[2..];
    assert s[6] == BACKSLASH && s[7] == 117;
  }

  lemma UnitDecodes(v: nat, tail: Bytes)
    requires v < 0x10000 && !(0xD800 <= v <= 0xDFFF)
    ensures Utf16Literal(UnitText(v) + tail, 6) == Literal(6, Utf8(v))
  {
    hide Utf8, ParseHex4, Hex4;
    UnitTextReads(v, tail);
  }

  /** Every scalar value's literal, surrogate pair or not, is turned into its UTF-8 form. */
  lemma ScalarDecodes(cp: nat, tail: Bytes)
    requires cp <= 0x10FFFF && !(0xD800 <= cp <= 0xDFFF)
    ensures Utf16Literal(ScalarText(cp) + tail, |ScalarText(cp)|) == Literal(|ScalarText(cp)|, Utf8(cp))
  {
    hide Utf8, Utf16Literal, Hex4;
    if cp < 0x10000 {
      UnitDecodes(cp, tail);
    } else {
      var high, low := 0xD800 + (cp - 0x10000) / 1024, 0xDC00 + (cp - 0x10000) % 1024;
      PairDecodes(high, low, tail);
      SurrogatesCombine(cp - 0x10000);
    }
  }

  lemma SurrogatesCombine(x: nat)
    requires x < 0x100000
    ensures (0xD800 + x / 1024) % 1024 == x / 1024 && (0xDC00 + x % 1024) % 1024 == x % 1024
  {
  }

  // ---------- reading ----------

  datatype Scan = NoEnd | End(at: nat, skipped: nat)

  /** The first scan of parse_string from position p: where the closing quote is, and how many escapes were passed. */
  function ScanEnd(c: Bytes, p: nat): (r: Scan)
    ensures r.End? ==> p <= r.at < |c| && c[r.at] == QUOTE && p + 2 * r.skipped <= r.at
    decreases |c| - p
  {
    if p >= |c| then NoEnd
    else if c[p] == QUOTE then End(p, 0)
    else if c[p] == BACKSLASH then
      if p + 1 >= |c| then NoEnd
      else
        match ScanEnd(c, p + 2)
        case NoEnd => NoEnd
        case End(at, skipped) => End(at, skipped + 1)
    else ScanEnd(c, p + 1)
  }

  /** One round of the scan. */
  lemma ScanRound(c: Bytes, p: nat)
    requires p <= |c|
    ensures p == |c| || (c[p] == BACKSLASH && p + 1 == |c|) ==> ScanEnd(c, p) == NoEnd
    ensures p < |c| && c[p] == QUOTE ==> ScanEnd(c, p) == End(p, 0)
    ensures p + 1 < |c| && c[p] == BACKSLASH ==>
              ScanEnd(c, p) == match ScanEnd(c, p + 2) case NoEnd => NoEnd case End(at, k) => End(at, k + 1)
    ensures p < |c| && c[p] != QUOTE && c[p] != BACKSLASH ==> ScanEnd(c, p) == ScanEnd(c, p + 1)
  {
  }

  /** The first scan does not depend on where the buffer starts. */
  lemma {:induction false} ScanShift(c: Bytes, o: nat, p: nat)
    requires o + p <= |c|
    ensures ScanEnd(c[o..], p) ==
            match ScanEnd(c, o + p) case NoEnd => NoEnd case End(at, k) => if at < o then NoEnd else End(at - o, k)
    decreases |c| - p
  {
    hide ScanEnd;
    ScanRound(c, o + p);
    ScanRound(c[o..], p);
    if o + p < |c| {
      assert c[o..][p] == c[o + p];
      if c[o + p] == BACKSLASH && o + p + 1 < |c| {
        ScanShift(c, o, p + 2);
      } else if c[o + p] != QUOTE && c[o + p] != BACKSLASH {
        ScanShift(c, o, p + 1);
      }
    }
  }

  /** The character a one-letter escape stands for; -1 for a letter that is no escape. */
  function Unescaped(b: Byte): int {
    if b == 98 then 8
    else if b == 102 then 12
    else if b == 110 then 10
    else if b == 114 then 13
    else if b == 116 then 9
    else if b == QUOTE || b == BACKSLASH || b == SLASH then b
    else -1
  }

  /** One round of parse_string's second loop, n > 0 bytes before the closing quote: bytes consumed and written. */
  function Step(s: Bytes, n: nat): (r: Literal)
    requires 0 < n < |s|
    ensures r.Literal? && s[0] != BACKSLASH ==> r == Literal(1, [s[0]])
    ensures r.Literal? && s[0] == BACKSLASH ==> r.length in {2, 6, 12} && 2 * |r.bytes| <= r.length
    ensures r.Literal? ==> r.length <= n || (n == 1 && r.length == 2)
  {
    if s[0] != BACKSLASH then Literal(1, [s[0]])
    else if s[1] == 117 then Utf16Literal(s, n)
    else if Unescaped(s[1]) < 0 then BadLiteral
    else Literal(2, [Unescaped(s[1])])
  }

  /** The second scan of parse_string over the n bytes before the closing quote; it may step one past that quote. */
  function Unescape(s: Bytes, n: nat): Option<Bytes>
    requires n < |s|
    decreases n
  {
    if n == 0 then Some([])
    else
      match Step(s, n)
      case BadLiteral => None
      case Literal(k, w) => Prepend(w, if k >= n then Some([]) else Unescape(s[k..], n - k))
  }

  datatype Parsed<T> = Fail | Ok(value: T, rest: Bytes)

  /** Text as the parser sees it: a zero byte ends it. */
  predicate Terminated(s: Bytes) {
    s != [] && s[|s| - 1] == 0
  }

  /** parse_string. */
  function ParseString(s: Bytes): (r: Parsed<Bytes>)
    requires Terminated(s)
    ensures r.Ok? ==> Terminated(r.rest) && |r.rest| < |s|
  {
    if s[0] != QUOTE then Fail
    else
      match ScanEnd(s, 1)
      case NoEnd => Fail
      case End(at, _) =>
        match Unescape(s[1..], at - 1)
        case None => Fail
        case Some(bytes) => Ok(bytes, s[at + 1..])
  }

  // ---------- the sizing scan bounds the filling scan ----------

  /** How many tokens of the first scan, from position q on, have their last byte at p or later. */
  function Ending(c: Bytes, q: nat, end: nat, p: nat): nat
    requires end <= |c|
    decreases end - q
  {
    if q >= end then 0
    else
      var next := if c[q] == BACKSLASH then q + 2 else q + 1;
      (if next > p then 1 else 0) + Ending(c, next, end, p)
  }

  /** The first scan's arithmetic: one output byte is reserved for each of its tokens. */
  lemma {:induction false} ScanCountsTokens(c: Bytes, q: nat)
    requires ScanEnd(c, q).End?
    ensures var r := ScanEnd(c, q); Ending(c, q, r.at, q) == r.at - q - r.skipped
    decreases |c| - q
  {
    var end := ScanEnd(c, q).at;
    if q < end {
      var next := if c[q] == BACKSLASH then q + 2 else q + 1;
      ScanCountsTokens(c, next);
      EndingFrom(c, next, end, q, next);
    }
  }

  /** Tokens that start at q all end at q or later. */
  lemma {:induction false} EndingFrom(c: Bytes, q: nat, end: nat, p: nat, p': nat)
    requires end <= |c| && p <= q && p' <= q
    ensures Ending(c, q, end, p) == Ending(c, q, end, p')
    decreases end - q
  {
    if q < end {
      var next := if c[q] == BACKSLASH then q + 2 else q + 1;
      EndingFrom(c, next, end, p, p');
    }
  }

  /** A plain byte is the last of its token, wherever the second scan stands. */
  lemma {:induction false} PlainByte(c: Bytes, q: nat, p: nat)
    requires ScanEnd(c, q).End? && q <= p < ScanEnd(c, q).at && c[p] != BACKSLASH
    ensures var end := ScanEnd(c, q).at; Ending(c, q, end, p) >= Ending(c, q, end, p + 1) + 1
    decreases p - q
  {
    var end := ScanEnd(c, q).at;
    var next := if c[q] == BACKSLASH then q + 2 else q + 1;
    if next <= p {
      PlainByte(c, next, p);
    } else {
      EndingFrom(c, next, end, p, p + 1);
    }
  }

  /** Any two bytes, aligned with the first scan or not, see a token end. */
  lemma {:induction false} TwoBytes(c: Bytes, q: nat, p: nat)
    requires ScanEnd(c, q).End? && q <= p < ScanEnd(c, q).at
    ensures var end := ScanEnd(c, q).at; Ending(c, q, end, p) >= Ending(c, q, end, p + 2) + 1
    decreases p - q
  {
    var end := ScanEnd(c, q).at;
    var next := if c[q] == BACKSLASH then q + 2 else q + 1;
    if next <= p {
      TwoBytes(c, next, p);
    } else {
      EndingLater(c, next, end, p, p + 2);
    }
  }

  lemma {:induction false} EndingLater(c: Bytes, q: nat, end: nat, p: nat, p': nat)
    requires end <= |c| && p <= p'
    ensures Ending(c, q, end, p) >= Ending(c, q, end, p')
    decreases end - q
  {
    if q < end {
      EndingLater(c, if c[q] == BACKSLASH then q + 2 else q + 1, end, p, p');
    }
  }

  lemma ManyBytes(c: Bytes, q: nat, p: nat, pairs: nat)
    requires ScanEnd(c, q).End? && q <= p && p + 2 * pairs <= ScanEnd(c, q).at
    ensures var end := ScanEnd(c, q).at; Ending(c, q, end, p) >= Ending(c, q, end, p + 2 * pairs) + pairs
    decreases pairs
  {
    if pairs > 0 {
      TwoBytes(c, q, p);
      ManyBytes(c, q, p + 2, pairs - 1);
    }
  }

  predicate Within(r: Option<Bytes>, most: nat) {
    r.Some? ==> |r.value| <= most
  }

  /** The second scan from position p, and its next round, with the closing quote at end. */
  function UnescapeAt(c: Bytes, p: nat, end: nat): Option<Bytes>
    requires p <= end < |c|
  {
    Unescape(c[p..], end - p)
  }

  function StepAt(c: Bytes, p: nat, end: nat): Literal
    requires p < end < |c|
  {
    Step(c[p..], end - p)
  }

  lemma UnescapeAtEnd(c: Bytes, end: nat)
    requires end < |c|
    ensures UnescapeAt(c, end, end) == Some([])
  {
  }

  lemma UnescapeRound(c: Bytes, p: nat, end: nat)
    requires p < end < |c|
    ensures var r := StepAt(c, p, end);
            && (r.BadLiteral? ==> UnescapeAt(c, p, end).None?)
            && (r.Literal? ==> 0 < r.length && p + r.length <= end + 1)
            && (r.Literal? && p + r.length >= end ==> UnescapeAt(c, p, end) == Some(r.bytes))
            && (r.Literal? && p + r.length < end ==>
                  UnescapeAt(c, p, end) == Prepend(r.bytes, UnescapeAt(c, p + r.length, end)))
  {
    hide Step;
    var r := StepAt(c, p, end);
    if r.Literal? {
      if p + r.length < end {
        assert c[p..][r.length..] == c[p + r.length..];
      } else {
        assert r.bytes + [] == r.bytes;
      }
    }
  }

  /**
    From any position, aligned with the first scan's tokens or not, the second
    scan writes no more bytes than tokens of the first scan still end there.
   */
  lemma {:induction false} WritesBounded(c: Bytes, q: nat, p: nat)
    requires ScanEnd(c, q).End? && q <= p <= ScanEnd(c, q).at
    ensures Within(UnescapeAt(c, p, ScanEnd(c, q).at), Ending(c, q, ScanEnd(c, q).at, p))
    decreases |c| - p
  {
    hide Ending, ScanEnd, StepAt, UnescapeAt;
    var end := ScanEnd(c, q).at;
    if p == end {
      UnescapeAtEnd(c, end);
    } else {
      UnescapeRound(c, p, end);
      var r := StepAt(c, p, end);
      if r.Literal? {
        StepBounded(c, q, p);
        if p + r.length < end {
          WritesBounded(c, q, p + r.length);
        }
      }
    }
  }

  /** One round of the second scan writes no more bytes than tokens of the first scan end under it. */
  lemma StepBounded(c: Bytes, q: nat, p: nat)
    requires ScanEnd(c, q).End? && q <= p < ScanEnd(c, q).at && StepAt(c, p, ScanEnd(c, q).at).Literal?
    ensures var end := ScanEnd(c, q).at; var r := StepAt(c, p, end);
            Ending(c, q, end, p) >= Ending(c, q, end, p + r.length) + |r.bytes|
  {
    hide Ending, ScanEnd, Step;
    var end := ScanEnd(c, q).at;
    var r := StepAt(c, p, end);
    if c[p] != BACKSLASH {
      PlainByte(c, q, p);
    } else if p + r.length <= end {
      ManyBytes(c, q, p, r.length / 2);
    } else {
      TwoBytes(c, q, p);
    }
  }

  /** The buffer parse_string allocates holds everything it writes, and the closing zero. */
  lemma AllocationSuffices(c: Bytes)
    requires c != [] && c[0] == QUOTE && ScanEnd(c, 1).End?
    ensures var r := ScanEnd(c, 1);
            var written := UnescapeAt(c, 1, r.at);
            written.Some? ==> |written.value| + 1 <= (r.at - r.skipped) + 1
  {
    hide ScanEnd, Ending, UnescapeAt;
    WritesBounded(c, 1, 1);
    ScanCountsTokens(c, 1);
  }

  // ---------- writing ----------

  /** What print_string_ptr writes for one byte. */
  function EscapedByte(b: Byte): Bytes {
    if b > 31 && b != QUOTE && b != BACKSLASH then [b]
    else if b == BACKSLASH then [BACKSLASH, BACKSLASH]
    else if b == QUOTE then [BACKSLASH, QUOTE]
    else if b == 8 then [BACKSLASH, 98]
    else if b == 12 then [BACKSLASH, 102]
    else if b == 10 then [BACKSLASH, 110]
    else if b == 13 then [BACKSLASH, 114]
    else if b == 9 then [BACKSLASH, 116]
    else UnitText(b)
  }

  function Escaped(s: Bytes): Bytes {
    if s == [] then [] else EscapedByte(s[0]) + Escaped(s[1..])
  }

  /** The extra characters the counting pass adds for one byte. */
  function ExtraFor(b: Byte): nat {
    if b == QUOTE || b == BACKSLASH || b == 8 || b == 12 || b == 10 || b == 13 || b == 9 then 1
    else if b < 32 then 5
    else 0
  }

  function Extra(s: Bytes): nat {
    if s == [] then 0 else ExtraFor(s[0]) + Extra(s[1..])
  }

  /** The counting pass computes exactly the length the copying pass writes. */
  lemma {:induction false} CountIsExact(s: Bytes)
    ensures |Escaped(s)| == |s| + Extra(s)
    ensures Extra(s) == 0 ==> Escaped(s) == s
  {
    if s != [] {
      CountIsExact(s[1..]);
      assert s == [s[0]] + s[1..];
    }
  }

  function StringText(s: Bytes): Bytes {
    [QUOTE] + Escaped(s) + [QUOTE]
  }
}
