/**
  The hexadecimal and base64 codecs of source/encoding.c, portable path, against
  sections 8 and 4 of RFC 4648.
 */
module Encodings {
  import opened Options
  import opened Sequences
  import opened Octets

  datatype Status = Success | ShortBuffer | InvalidHex | InvalidBase64

  // ---------- hexadecimal ----------

  /** Two lower-case digits for each byte. */
  function HexText(s: Bytes): Bytes {
    if s == [] then [] else [HexDigit(s[0] / 16), HexDigit(s[0] % 16)] + HexText(s[1..])
  }

  /** Two digits of either case for each byte; None if one is no digit. */
  function HexPairs(s: Bytes): Option<Bytes>
    requires |s| % 2 == 0
  {
    if s == [] then Some([])
    else if HexValue(s[0]) < 0 || HexValue(s[1]) < 0 then None
    else Prepend([HexValue(s[0]) * 16 + HexValue(s[1])], HexPairs(s[2..]))
  }

  /** aws_hex_decode: of an odd number of digits the first stands alone. */
  function HexDecoded(s: Bytes): Option<Bytes> {
    if |s| % 2 == 0 then HexPairs(s)
    else if HexValue(s[0]) < 0 then None
    else Prepend([HexValue(s[0])], HexPairs(s[1..]))
  }

  lemma {:induction false} HexTextLength(s: Bytes)
    ensures |HexText(s)| == 2 * |s|
  {
    if s != [] {
      HexTextLength(s[1..]);
    }
  }

  lemma {:induction false} HexTextAppend(s: Bytes, b: Byte)
    ensures HexText(s + [b]) == HexText(s) + [HexDigit(b / 16), HexDigit(b % 16)]
  {
    if s == [] {
      assert [b][1..] == [];
      assert HexText([b]) == [HexDigit(b / 16), HexDigit(b % 16)] + HexText([]);
    } else {
      assert (s + [b])[1..] == s[1..] + [b];
      HexTextAppend(s[1..], b);
    }
  }

  /** Decoding the lower-case text gives the bytes back. */
  lemma {:induction false} HexRoundTrip(s: Bytes)
    ensures |HexText(s)| % 2 == 0 && HexDecoded(HexText(s)) == Some(s)
  {
    HexTextLength(s);
    if s != [] {
      HexRoundTrip(s[1..]);
      HexTextLength(s[1..]);
      var t := HexText(s);
      assert t[2..] == HexText(s[1..]);
      assert HexValue(t[0]) == s[0] / 16 && HexValue(t[1]) == s[0] % 16;
      assert [s[0]] + s[1..] == s;
    }
  }

  /** Every byte is written as its two digits, the high one first. */
  lemma {:induction false} HexTextIs(s: Bytes, i: nat)
    requires i < |s|
    ensures |HexText(s)| == 2 * |s|
    ensures HexText(s)[2 * i] == LOWER_DIGITS[s[i] / 16] as int && HexText(s)[2 * i + 1] == LOWER_DIGITS[s[i] % 16] as int
  {
    HexTextLength(s);
    if i == 0 {
      HexDigitsAre(s[0] / 16, 0);
      HexDigitsAre(s[0] % 16, 0);
    } else {
      hide HexDigit;
      HexTextIs(s[1..], i - 1);
    }
  }

  /** An odd number of digits decodes as if a zero digit stood in front. */
  lemma OddIsLeadingZero(s: Bytes)
    requires |s| % 2 == 1
    ensures HexDecoded(s) == HexDecoded([48] + s)
  {
    var t: Bytes := [48] + s;
    assert t[2..] == s[1..] && t[1] == s[0];
  }

  /** The bytes stand at a place, and nothing else changed. */
  ghost predicate Written(was: Bytes, now: Bytes, start: nat, w: Bytes) {
    && start + |w| <= |was| == |now| && now[..start + |w|] == was[..start] + w
    && now[start + |w|..] == was[start + |w|..]
  }

  lemma WrittenNone(was: Bytes, start: nat)
    requires start <= |was|
    ensures Written(was, was, start, [])
  {
  }

  lemma WrittenMore(was: Bytes, now: Bytes, start: nat, w: Bytes, b: Byte)
    requires Written(was, now, start, w) && start + |w| < |now|
    ensures Written(was, now[start + |w| := b], start, w + [b])
  {
    var n := start + |w|;
    var next := now[n := b];
    assert next[..n + 1] == now[..n] + [b];
    assert next[n + 1..] == now[n..][1..];
    assert was[n + 1..] == was[n..][1..];
  }

  lemma WrittenAll(was: Bytes, now: Bytes, w: Bytes)
    requires Written(was, now, 0, w)
    ensures |w| <= |now| && now[..|w|] == w
  {
  }

  /** One stretch written behind another. */
  lemma WrittenTwice(was: Bytes, mid: Bytes, now: Bytes, v: Bytes, w: Bytes)
    requires Written(was, mid, 0, v) && Written(mid, now, |v|, w)
    ensures Written(was, now, 0, v + w)
  {
    var n := |v| + |w|;
    assert mid[n..] == mid[|v|..][|w|..] && was[n..] == was[|v|..][|w|..];
    assert was[..0] == [] && [] + v == v;
  }

  /** The bytes of the pairs in front of the first that is not two digits. */
  function HexPairsDone(s: Bytes): (w: Bytes)
    requires |s| % 2 == 0
    ensures 2 * |w| <= |s|
  {
    if s == [] || HexValue(s[0]) < 0 || HexValue(s[1]) < 0 then []
    else [HexValue(s[0]) * 16 + HexValue(s[1])] + HexPairsDone(s[2..])
  }

  lemma {:induction false} PairsDoneDecide(s: Bytes)
    requires |s| % 2 == 0
    ensures HexPairs(s) == if 2 * |HexPairsDone(s)| == |s| then Some(HexPairsDone(s)) else None
  {
    if s != [] && HexValue(s[0]) >= 0 && HexValue(s[1]) >= 0 {
      PairsDoneDecide(s[2..]);
    }
  }

  /** The pairs decoded are a prefix; behind it comes a byte that is no digit, or the end. */
  lemma {:induction false} PairsDonePrefix(s: Bytes)
    requires |s| % 2 == 0
    ensures var k := 2 * |HexPairsDone(s)|;
            && HexPairs(s[..k]) == Some(HexPairsDone(s))
            && (k < |s| ==> HexValue(s[k]) < 0 || HexValue(s[k + 1]) < 0)
  {
    var k := 2 * |HexPairsDone(s)|;
    if s != [] && HexValue(s[0]) >= 0 && HexValue(s[1]) >= 0 {
      PairsDonePrefix(s[2..]);
      assert s[..k][2..] == s[2..][..k - 2];
    }
  }

  /** What a decode has written when it ends, in success or at the first byte that is no digit. */
  function HexDone(s: Bytes): (w: Bytes)
    ensures |w| <= (|s| + 1) / 2
  {
    if |s| % 2 == 0 then HexPairsDone(s)
    else if HexValue(s[0]) < 0 then []
    else [HexValue(s[0])] + HexPairsDone(s[1..])
  }

  /** That is the decoding of a prefix, all of the text exactly when all of it decodes. */
  lemma HexDonePrefix(s: Bytes) returns (k: nat)
    ensures k <= |s| && HexDecoded(s[..k]) == Some(HexDone(s))
    ensures k == |s| <==> HexDecoded(s).Some?
    ensures k < |s| ==> HexValue(s[k]) < 0 || (k + 1 < |s| && HexValue(s[k + 1]) < 0)
  {
    hide HexPairs, HexPairsDone, HexValue;
    if |s| % 2 == 0 {
      k := 2 * |HexPairsDone(s)|;
      PairsDoneDecide(s);
      PairsDonePrefix(s);
      assert k == |s| ==> s[..k] == s;
    } else if HexValue(s[0]) < 0 {
      k := 0;
      NoPairs();
    } else {
      k := 1 + 2 * |HexPairsDone(s[1..])|;
      PairsDoneDecide(s[1..]);
      PairsDonePrefix(s[1..]);
      assert s[..k][1..] == s[1..][..k - 1];
    }
  }

  lemma NoPairs()
    ensures HexPairs([]) == Some([])
  {
  }

  // ---------- base64 ----------

  const PAD: Byte := 61

  /** Table 1 of RFC 4648. */
  function Base64Char(v: nat): Byte
    requires v < 64
  {
    if v < 26 then 65 + v else if v < 52 then 71 + v else if v < 62 then v - 4 else if v == 62 then 43 else 47
  }

  /** The four characters of 24 bits. */
  function Quad(block: nat): (r: Bytes)
    requires block < 0x100_0000
    ensures |r| == 4
  {
    [Base64Char(block / 262144), Base64Char(block / 4096 % 64), Base64Char(block / 64 % 64), Base64Char(block % 64)]
  }

  function Block(a: Byte, b: Byte, c: Byte): (r: nat)
    ensures r < 0x100_0000
  {
    (a as nat) * 65536 + (b as nat) * 256 + c
  }

  /** The encoding of section 4 of RFC 4648. */
  function Base64Text(s: Bytes): Bytes {
    if s == [] then []
    else if |s| == 1 then Quad(Block(s[0], 0, 0))[..2] + [PAD, PAD]
    else if |s| == 2 then Quad(Block(s[0], s[1], 0))[..3] + [PAD]
    else Quad(Block(s[0], s[1], s[2])) + Base64Text(s[3..])
  }

  /** The alphabet, table 1 of RFC 4648. */
  function Letter(v: nat): char
    requires v < 64
  {
    if v < 26 then "ABCDEFGHIJKLMNOPQRSTUVWXYZ"[v]
    else if v < 52 then "abcdefghijklmnopqrstuvwxyz"[v - 26]
    else "0123456789+/"[v - 52]
  }

  lemma LetterIs(v: nat)
    requires v < 64
    ensures Base64Char(v) == Letter(v) as int
  {
    if v < 26 {
      CapitalIs(v);
    } else if v < 52 {
      SmallIs(v - 26);
    } else {
      DigitIs(v - 52);
    }
  }

  lemma CapitalIs(v: nat)
    requires v < 26
    ensures "ABCDEFGHIJKLMNOPQRSTUVWXYZ"[v] as int == 65 + v
  {
  }

  lemma SmallIs(v: nat)
    requires v < 26
    ensures "abcdefghijklmnopqrstuvwxyz"[v] as int == 97 + v
  {
  }

  lemma DigitIs(v: nat)
    requires v < 12
    ensures "0123456789+/"[v] as int == if v < 10 then 48 + v else if v == 10 then 43 else 47
  {
  }

  function ByteAt(s: Bytes, i: nat): nat {
    if i < |s| then s[i] else 0
  }

  /** The i-th group of six bits of the bytes, zero bits following them. */
  function SixBits(s: Bytes, i: nat): (v: nat)
    ensures v < 64
  {
    var p := i / 4 * 3;
    if i % 4 == 0 then ByteAt(s, p) / 4
    else if i % 4 == 1 then ByteAt(s, p) % 4 * 16 + ByteAt(s, p + 1) / 16
    else if i % 4 == 2 then ByteAt(s, p + 1) % 16 * 4 + ByteAt(s, p + 2) / 64
    else ByteAt(s, p + 2) % 64
  }

  /** The four groups of 24 bits. */
  lemma Groups(a: Byte, b: Byte, c: Byte)
    ensures var block := Block(a, b, c);
            && block / 262144 == a / 4 && block / 4096 % 64 == a % 4 * 16 + b / 16
            && block / 64 % 64 == b % 16 * 4 + c / 64 && block % 64 == c % 64
  {
    HighGroups(a, b, c);
    LowGroups(a, b, c);
  }

  lemma HighGroups(a: Byte, b: Byte, c: Byte)
    ensures Block(a, b, c) / 262144 == a / 4 && Block(a, b, c) / 4096 % 64 == a % 4 * 16 + b / 16
  {
    var q: int, r: int := a as int * 16 + b / 16, b % 16 * 256 + c as int;
    assert Block(a, b, c) == q * 4096 + r && 0 <= r < 4096;
    assert Block(a, b, c) / 4096 == q;
    assert q == a / 4 * 64 + (a % 4 * 16 + b / 16);
  }

  lemma LowGroups(a: Byte, b: Byte, c: Byte)
    ensures Block(a, b, c) / 64 % 64 == b % 16 * 4 + c / 64 && Block(a, b, c) % 64 == c % 64
  {
    var q: int := a as int * 1024 + b as int * 4 + c / 64;
    assert Block(a, b, c) == q * 64 + c % 64;
    assert Block(a, b, c) / 64 == q;
    assert q == (a as int * 16 + b / 16) * 64 + (b % 16 * 4 + c / 64);
  }

  lemma QuadIs(a: Byte, b: Byte, c: Byte, i: nat)
    requires i < 4
    ensures Quad(Block(a, b, c))[i] == Letter(SixBits([a, b, c], i)) as int
  {
    hide Base64Char, Letter, Block;
    Groups(a, b, c);
    LetterIs(SixBits([a, b, c], i));
  }

  /** The text, character by character: the group's place in the alphabet, and padding beyond the last bit. */
  lemma {:induction false} Base64TextIs(s: Bytes, i: nat)
    requires i < |Base64Text(s)|
    ensures |Base64Text(s)| == 4 * ((|s| + 2) / 3)
    ensures Base64Text(s)[i] == if 6 * i < 8 * |s| then Letter(SixBits(s, i)) as int else '=' as int
  {
    hide Quad, Block, Letter, SixBits;
    Base64Length(s);
    if i < 4 {
      var b, c := if |s| > 1 then s[1] else 0, if |s| > 2 then s[2] else 0;
      QuadIs(s[0], b, c, i);
      FirstGroups(s, b, c, i);
    } else {
      Base64TextIs(s[3..], i - 4);
      LaterGroups(s, i);
    }
  }

  lemma FirstGroups(s: Bytes, b: Byte, c: Byte, i: nat)
    requires s != [] && i < 4 && b == ByteAt(s, 1) && c == ByteAt(s, 2)
    ensures SixBits(s, i) == SixBits([s[0], b, c], i)
  {
  }

  lemma LaterGroups(s: Bytes, i: nat)
    requires |s| >= 3 && i >= 4
    ensures SixBits(s, i) == SixBits(s[3..], i - 4)
  {
    assert i / 4 == (i - 4) / 4 + 1;
  }

  lemma {:induction false} Base64Length(s: Bytes)
    ensures |Base64Text(s)| == 4 * ((|s| + 2) / 3)
  {
    hide Quad, Block;
    if |s| >= 3 {
      Base64Length(s[3..]);
    }
  }

  /** aws_base64_compute_encoded_len, with its terminating zero. */
  function EncodedLength(n: nat): nat {
    4 * ((n + 2) / 3) + 1
  }

  /** The decoding table: 0xDD for no value, 255 for the padding character; the zero byte has the value 64. */
  function TableValue(b: Byte): Byte {
    if b == 0 then 64
    else if b == 43 then 62
    else if b == 47 then 63
    else if 48 <= b <= 57 then b + 4
    else if b == PAD then 255
    else if 65 <= b <= 90 then b - 65
    else if 97 <= b <= 122 then b - 71
    else 0xDD
  }

  /** s_base64_get_decoded_value succeeds. */
  predicate HasValue(b: Byte, allowPad: bool) {
    TableValue(b) != 0xDD && (TableValue(b) != 255 || allowPad)
  }

  /** The alphabet of section 4 of RFC 4648. */
  predicate InAlphabet(b: Byte) {
    65 <= b <= 90 || 97 <= b <= 122 || 48 <= b <= 57 || b == 43 || b == 47
  }

  lemma HasValueIff(b: Byte, allowPad: bool)
    ensures HasValue(b, allowPad) <==> b == 0 || InAlphabet(b) || (allowPad && b == PAD)
  {
  }

  lemma TableInverse(v: nat)
    requires v < 64
    ensures TableValue(Base64Char(v)) == v && Base64Char(v) != PAD
  {
  }

  /** The bitwise or of bits 6 and 7 with a value up to 64. */
  function OrLow(high: nat, v: nat): Byte
    requires high < 4 && v <= 64
  {
    if v < 64 then high * 64 + v else if high % 2 == 1 then high * 64 else high * 64 + 64
  }

  function Byte0(v1: nat, v2: nat): Byte {
    v1 % 64 * 4 + v2 / 16 % 4
  }

  function Byte1(v2: nat, v3: nat): Byte {
    v2 % 16 * 16 + v3 / 4 % 16
  }

  function Byte2(v3: nat, v4: nat): Byte
    requires v4 <= 64
  {
    OrLow(v3 % 4, v4)
  }

  /** A block that is not the last: no padding. */
  function DecodedBlock(s: Bytes): Option<Bytes>
    requires |s| >= 4
  {
    if !HasValue(s[0], false) || !HasValue(s[1], false) || !HasValue(s[2], false) || !HasValue(s[3], false) then None
    else
      var v1, v2, v3, v4 := TableValue(s[0]), TableValue(s[1]), TableValue(s[2]), TableValue(s[3]);
      Some([Byte0(v1, v2), Byte1(v2, v3), Byte2(v3, v4)])
  }

  /** The last block: padding ends it in the third or fourth place. */
  function DecodedLast(s: Bytes): Option<Bytes>
    requires |s| == 4
  {
    if !HasValue(s[0], false) || !HasValue(s[1], false) || !HasValue(s[2], true) || !HasValue(s[3], true) then None
    else
      var v1, v2, v3, v4 := TableValue(s[0]), TableValue(s[1]), TableValue(s[2]), TableValue(s[3]);
      if v3 == 255 then Some([Byte0(v1, v2)])
      else if v4 == 255 then Some([Byte0(v1, v2), Byte1(v2, v3)])
      else Some([Byte0(v1, v2), Byte1(v2, v3), Byte2(v3, v4)])
  }

  /** The bytes aws_base64_decode writes; None where it reports an invalid string. */
  function Base64Decoded(s: Bytes): Option<Bytes>
    requires |s| % 4 == 0
  {
    if s == [] then Some([])
    else if |s| == 4 then DecodedLast(s)
    else
      match DecodedBlock(s)
      case None => None
      case Some(w) => Prepend(w, Base64Decoded(s[4..]))
  }

  /** What a decode has written when it ends, in success or at the first block it refuses. */
  function Base64Done(s: Bytes): Bytes
    requires |s| % 4 == 0
  {
    if s == [] then []
    else if |s| == 4 then
      match DecodedLast(s)
      case None => []
      case Some(w) => w
    else
      match DecodedBlock(s)
      case None => []
      case Some(w) => w + Base64Done(s[4..])
  }

  lemma {:induction false} DoneIsDecoded(s: Bytes)
    requires |s| % 4 == 0
    ensures Base64Decoded(s).Some? ==> Base64Decoded(s).value == Base64Done(s)
  {
    hide DecodedBlock, DecodedLast;
    if |s| > 4 && DecodedBlock(s).Some? {
      DoneIsDecoded(s[4..]);
    }
  }

  lemma BlockIsLast(s: Bytes)
    requires |s| >= 4 && DecodedBlock(s).Some?
    ensures DecodedLast(s[..4]) == DecodedBlock(s)
  {
    hide TableValue, Byte0, Byte1, Byte2;
  }

  /** That is the decoding of the blocks in front of the first refused one, all of them exactly when all decode. */
  lemma {:induction false} DonePrefix(s: Bytes) returns (k: nat)
    requires |s| % 4 == 0
    ensures k <= |s| && k % 4 == 0 && Base64Decoded(s[..k]) == Some(Base64Done(s))
    ensures k == |s| <==> Base64Decoded(s).Some?
    ensures k < |s| ==> if k + 4 == |s| then DecodedLast(s[k..]).None? else DecodedBlock(s[k..]).None?
    decreases |s|
  {
    hide DecodedBlock, DecodedLast;
    if s == [] {
      k := 0;
    } else if |s| == 4 {
      k := if DecodedLast(s).Some? then 4 else 0;
      assert s[..4] == s && s[0..] == s;
    } else if DecodedBlock(s).None? {
      k := 0;
      assert s[0..] == s;
    } else {
      var j := DonePrefix(s[4..]);
      k := 4 + j;
      BlockIsLast(s);
      BlockAhead(s, j);
      assert s[4..][j..] == s[k..];
    }
  }

  /** A good block in front of a prefix of the rest. */
  lemma BlockAhead(s: Bytes, j: nat)
    requires |s| % 4 == 0 && |s| > 4 && j <= |s| - 4 && j % 4 == 0 && DecodedBlock(s).Some?
    ensures Base64Decoded(s[..4 + j]) == Prepend(DecodedBlock(s).value, Base64Decoded(s[4..][..j]))
  {
    hide TableValue, Byte0, Byte1, Byte2;
    var t := s[..4 + j];
    if j == 0 {
      BlockIsLast(s);
      assert s[4..][..0] == [] && t == s[..4];
      assert DecodedBlock(s).value + [] == DecodedBlock(s).value;
    } else {
      assert t[4..] == s[4..][..j];
      assert DecodedBlock(t) == DecodedBlock(s);
    }
  }

  /**
    A text is accepted exactly when every byte is zero or in the alphabet, or is
    the padding character in one of the last two places.
   */
  lemma {:induction false} AcceptedIff(s: Bytes)
    requires |s| % 4 == 0
    ensures Base64Decoded(s).Some? <==> forall i :: 0 <= i < |s| ==> HasValue(s[i], i >= |s| - 2)
  {
    hide HasValue;
    if |s| > 4 {
      AcceptedIff(s[4..]);
      forall i | 4 <= i < |s|
        ensures HasValue(s[i], i >= |s| - 2) <==> HasValue(s[4..][i - 4], i - 4 >= |s[4..]| - 2)
      {
      }
    }
  }

  /** A byte outside the standard's alphabet gets through exactly when it is zero. */
  lemma StandardIff(s: Bytes)
    requires |s| % 4 == 0 && Base64Decoded(s).Some?
    ensures (forall i :: 0 <= i < |s| ==> InAlphabet(s[i]) || (i >= |s| - 2 && s[i] == PAD)) <==> 0 !in s
  {
    hide Base64Decoded;
    AcceptedIff(s);
    forall i | 0 <= i < |s|
      ensures InAlphabet(s[i]) || (i >= |s| - 2 && s[i] == PAD) <==> s[i] != 0
    {
      HasValueIff(s[i], i >= |s| - 2);
      assert HasValue(s[i], i >= |s| - 2);
    }
  }

  /** The place of a character of the alphabet. */
  lemma PlaceIs(b: Byte)
    requires InAlphabet(b)
    ensures TableValue(b) < 64 && Letter(TableValue(b)) as int == b
  {
    hide Letter, Base64Char;
    TableReads(b);
    LetterIs(TableValue(b));
  }

  lemma TableReads(b: Byte)
    requires InAlphabet(b)
    ensures TableValue(b) < 64 && Base64Char(TableValue(b)) == b
  {
  }

  /** The j-th eight bits of the six-bit groups that the characters of a text stand for. */
  function EightBits(s: Bytes, j: nat): int
    requires j / 3 * 4 + 3 < |s|
  {
    var p := j / 3 * 4;
    var a, b, c, d := TableValue(s[p]) as int, TableValue(s[p + 1]) as int, TableValue(s[p + 2]) as int, TableValue(s[p + 3]) as int;
    if j % 3 == 0 then a * 4 + b / 16
    else if j % 3 == 1 then b % 16 * 16 + c / 4
    else c % 4 * 64 + d
  }

  /** What an accepted text without zero bytes decodes to, byte by byte, whether or not bits are left over. */
  lemma {:induction false} DecodedBytes(s: Bytes, j: nat)
    requires |s| % 4 == 0 && Base64Decoded(s).Some? && 0 !in s && j < |Base64Decoded(s).value|
    ensures j / 3 * 4 + 3 < |s| && Base64Decoded(s).value[j] == EightBits(s, j)
  {
    hide TableValue, EightBits, Base64Decoded, DecodedBlock, DecodedLast;
    if s == [] {
      NothingDecoded();
    } else if |s| == 4 {
      OneBlock(s);
      LastBytes(s, j);
    } else {
      assert s[0..] == s;
      BlockStep(s, 0);
      BlockBytes(s);
      if j >= 3 {
        assert 0 !in s[4..];
        DecodedBytes(s[4..], j - 3);
        LaterBytes(s, j);
      }
    }
  }

  lemma OneBlock(s: Bytes)
    requires |s| == 4
    ensures Base64Decoded(s) == DecodedLast(s)
  {
  }

  lemma LaterBytes(s: Bytes, j: nat)
    requires |s| >= 4 && j >= 3 && (j - 3) / 3 * 4 + 3 < |s| - 4
    ensures j / 3 * 4 + 3 < |s| && EightBits(s, j) == EightBits(s[4..], j - 3)
  {
    hide TableValue;
    assert j / 3 == (j - 3) / 3 + 1;
  }

  lemma ValueBelow(b: Byte, allowPad: bool)
    requires HasValue(b, allowPad) && b != 0
    ensures TableValue(b) < 64 || (allowPad && b == PAD && TableValue(b) == 255)
  {
  }

  /** The three bytes of four groups. */
  lemma BytesAre(a: nat, b: nat, c: nat, d: nat)
    requires a < 64 && b < 64
    ensures Byte0(a, b) == a * 4 + b / 16
    ensures c < 64 ==> Byte1(b, c) == b % 16 * 16 + c / 4
    ensures c < 64 && d < 64 ==> Byte2(c, d) == c % 4 * 64 + d
  {
  }

  lemma BlockBytes(s: Bytes)
    requires |s| > 4 && DecodedBlock(s).Some? && 0 !in s
    ensures var w := DecodedBlock(s).value;
            |w| == 3 && w[0] == EightBits(s, 0) && w[1] == EightBits(s, 1) && w[2] == EightBits(s, 2)
  {
    hide TableValue, Byte0, Byte1, Byte2;
    ValueBelow(s[0], false);
    ValueBelow(s[1], false);
    ValueBelow(s[2], false);
    ValueBelow(s[3], false);
    BytesAre(TableValue(s[0]), TableValue(s[1]), TableValue(s[2]), TableValue(s[3]));
  }

  lemma LastBytes(s: Bytes, j: nat)
    requires |s| == 4 && DecodedLast(s).Some? && 0 !in s && j < |DecodedLast(s).value|
    ensures j < 3 && DecodedLast(s).value[j] == EightBits(s, j)
  {
    hide TableValue, Byte0, Byte1, Byte2;
    ValueBelow(s[0], false);
    ValueBelow(s[1], false);
    ValueBelow(s[2], true);
    ValueBelow(s[3], true);
    BytesAre(TableValue(s[0]), TableValue(s[1]), TableValue(s[2]), TableValue(s[3]));
  }

  /** As in this text. */
  lemma ZeroAccepted()
    ensures Base64Decoded([65, 65, 65, 0]).Some? && !InAlphabet(0)
  {
  }

  /** aws_base64_compute_decoded_len of a string whose length is a multiple of four. */
  function DecodedLength(s: Bytes): nat
    requires |s| % 4 == 0
  {
    if s == [] then 0
    else
      var padding := if s[|s| - 1] == PAD && s[|s| - 2] == PAD then 2 else if s[|s| - 1] == PAD then 1 else 0;
      |s| * 3 / 4 - padding
  }

  lemma QuadDecodes(a: Byte, b: Byte, c: Byte)
    ensures DecodedBlock(Quad(Block(a, b, c))) == Some([a, b, c])
    ensures DecodedLast(Quad(Block(a, b, c))) == Some([a, b, c])
    ensures c == 0 ==> DecodedLast(Quad(Block(a, b, c))[..3] + [PAD]) == Some([a, b])
    ensures b == 0 && c == 0 ==> DecodedLast(Quad(Block(a, b, c))[..2] + [PAD, PAD]) == Some([a])
  {
    var v: nat := Block(a, b, c);
    TableInverse(v / 262144);
    TableInverse(v / 4096 % 64);
    TableInverse(v / 64 % 64);
    TableInverse(v % 64);
    SplitBlock(a, b, c);
    hide Base64Char, TableValue, Block;
  }

  lemma Sextets(p: nat, q: nat, r: nat, u: nat)
    requires p < 64 && q < 64 && r < 64 && u < 64
    ensures var v := p * 262144 + q * 4096 + r * 64 + u;
            v / 262144 == p && v / 4096 % 64 == q && v / 64 % 64 == r && v % 64 == u
  {
    var v := p * 262144 + q * 4096 + r * 64 + u;
    assert v / 64 == p * 4096 + q * 64 + r;
    assert v / 4096 == p * 64 + q;
  }

  /** The sextets of three bytes, put together again. */
  lemma SplitBlock(a: Byte, b: Byte, c: Byte)
    ensures var v := Block(a, b, c);
            && Byte0(v / 262144, v / 4096 % 64) == a
            && Byte1(v / 4096 % 64, v / 64 % 64) == b
            && Byte2(v / 64 % 64, v % 64) == c
  {
    var x1, x0, y1, y0, z1, z0 := a / 4, a % 4, b / 16, b % 16, c / 64, c % 64;
    Sextets(x1, x0 * 16 + y1, y0 * 4 + z1, z0);
    assert Block(a, b, c) == x1 * 262144 + (x0 * 16 + y1) * 4096 + (y0 * 4 + z1) * 64 + z0;
    Recombine(x0, y1, y0, z1);
  }

  lemma Recombine(x0: nat, y1: nat, y0: nat, z1: nat)
    requires x0 < 4 && y1 < 16 && y0 < 16 && z1 < 4
    ensures (x0 * 16 + y1) / 16 % 4 == x0 && (x0 * 16 + y1) % 16 == y1
    ensures (y0 * 4 + z1) / 4 % 16 == y0 && (y0 * 4 + z1) % 4 == z1
  {
  }

  lemma ShortRoundTrip(s: Bytes)
    requires 1 <= |s| <= 3
    ensures |Base64Text(s)| == 4 && DecodedLast(Base64Text(s)) == Some(s)
    ensures Base64Text(s)[2] == PAD ==> Base64Text(s)[3] == PAD
  {
    var b, c := if |s| > 1 then s[1] else 0, if |s| > 2 then s[2] else 0;
    QuadDecodes(s[0], b, c);
    LastCharacters(Block(s[0], b, c));
    hide Quad, Block, DecodedLast;
    var q := Quad(Block(s[0], b, c));
    if |s| == 3 {
      assert s[3..] == [];
      assert Base64Text(s) == q + Base64Text([]) == q;
      assert s == [s[0], b, c];
      assert q[2] in q;
    } else if |s| == 2 {
      assert s == [s[0], b];
    } else {
      assert s == [s[0]];
    }
  }

  /** Decoding the encoding gives the bytes back. */
  lemma {:induction false} Base64RoundTrip(s: Bytes)
    ensures |Base64Text(s)| % 4 == 0 && Base64Decoded(Base64Text(s)) == Some(s)
    ensures var t := Base64Text(s); |s| > 0 ==> |t| >= 4 && (t[|t| - 2] == PAD ==> t[|t| - 1] == PAD)
  {
    hide Quad, Block, DecodedBlock, DecodedLast;
    if 1 <= |s| <= 3 {
      ShortRoundTrip(s);
    } else if |s| > 3 {
      var rest, head := Base64Text(s[3..]), Quad(Block(s[0], s[1], s[2]));
      var t := Base64Text(s);
      Base64RoundTrip(s[3..]);
      QuadDecodes(s[0], s[1], s[2]);
      assert t == head + rest && t[4..] == rest;
      BlockPrefix(head, rest);
      assert [s[0], s[1], s[2]] + s[3..] == s;
    }
  }

  /** The length computed from an encoding is that of the bytes encoded. */
  lemma DecodedLengthExact(s: Bytes)
    ensures |Base64Text(s)| % 4 == 0 && DecodedLength(Base64Text(s)) == |s|
  {
    Base64RoundTrip(s);
    assert s == [] ==> Base64Text(s) == [];
    hide Base64Text, Base64Decoded, DecodedLength;
    WritesWithin(Base64Text(s));
  }

  /** No character of a block is the padding character. */
  lemma LastCharacters(block: nat)
    requires block < 0x100_0000
    ensures PAD !in Quad(block)
  {
    TableInverse(block / 262144);
    TableInverse(block / 4096 % 64);
    TableInverse(block / 64 % 64);
    TableInverse(block % 64);
    hide Base64Char;
  }

  lemma BlockPrefix(head: Bytes, rest: Bytes)
    requires |head| == 4
    ensures DecodedBlock(head + rest) == DecodedBlock(head)
  {
  }

  /** What is written never exceeds the computed length, and fills it unless a padding character precedes a last one that is not. */
  lemma {:induction false} WritesWithin(s: Bytes)
    requires |s| % 4 == 0 && Base64Decoded(s).Some?
    ensures |Base64Decoded(s).value| <= DecodedLength(s)
    ensures |Base64Decoded(s).value| == DecodedLength(s) <==> s == [] || !(s[|s| - 2] == PAD && s[|s| - 1] != PAD)
    decreases |s|
  {
    hide TableValue, Byte0, Byte1, Byte2;
    if |s| == 4 {
      assert (forall b: Byte :: TableValue(b) == 255 <==> b == PAD) by {
        PadValue();
      }
    } else if |s| > 4 {
      WritesWithin(s[4..]);
    }
  }

  lemma PadValue()
    ensures forall b: Byte :: TableValue(b) == 255 <==> b == PAD
  {
  }

  // ---------- encoding into a buffer ----------

  /** The blocks as the encoding loop writes them, a short last one filled up with zero bits. */
  function Unpadded(s: Bytes): Bytes {
    if s == [] then []
    else if |s| <= 3 then Quad(Block(s[0], if |s| > 1 then s[1] else 0, if |s| > 2 then s[2] else 0))
    else Quad(Block(s[0], s[1], s[2])) + Unpadded(s[3..])
  }

  /** The last one or two characters replaced. */
  function Padded(t: Bytes, remainder: nat): Bytes
    requires |t| >= 2 || remainder == 0 || remainder > 2
  {
    if remainder == 1 then t[..|t| - 2] + [PAD, PAD]
    else if remainder == 2 then t[..|t| - 1] + [PAD]
    else t
  }

  /** One group of three bytes. */
  lemma HeadAhead(s: Bytes)
    requires |s| > 3
    ensures var head := Quad(Block(s[0], s[1], s[2]));
            && |head| == 4 && EncodedLength(|s|) == 4 + EncodedLength(|s[3..]|)
            && Unpadded(s) == head + Unpadded(s[3..]) && Base64Text(s) == head + Base64Text(s[3..])
  {
    hide Block;
  }

  lemma PaddingShort(s: Bytes)
    requires |s| <= 3
    ensures |Unpadded(s)| + 1 == EncodedLength(|s|) && (|Unpadded(s)| == 4 || s == [])
    ensures Base64Text(s) == Padded(Unpadded(s), |s| % 3)
  {
    hide Quad, Block;
    if |s| == 3 {
      assert s[3..] == [];
      assert Base64Text(s) == Quad(Block(s[0], s[1], s[2])) + Base64Text([]);
    }
  }

  /** Replacing the tail of the filled-up blocks gives the standard's encoding. */
  lemma {:induction false} PaddingIsStandard(s: Bytes)
    ensures |Unpadded(s)| + 1 == EncodedLength(|s|)
    ensures |Unpadded(s)| >= 4 || s == []
    ensures Base64Text(s) == Padded(Unpadded(s), |s| % 3)
  {
    hide Unpadded, Base64Text, EncodedLength, Quad, Block;
    if |s| > 3 {
      PaddingIsStandard(s[3..]);
      HeadAhead(s);
      assert |s[3..]| % 3 == |s| % 3;
      PaddedAfter(Quad(Block(s[0], s[1], s[2])), Unpadded(s[3..]), |s| % 3);
    } else {
      PaddingShort(s);
    }
  }

  /** What is still to be written, from byte i on. */
  ghost function Remaining(s: Bytes, i: nat): Bytes {
    if i < |s| then Unpadded(s[i..]) else []
  }

  lemma RemainingStart(s: Bytes)
    ensures Remaining(s, 0) == Unpadded(s)
  {
    assert s[0..] == s;
  }

  lemma RemainingStep(s: Bytes, i: nat)
    requires i < |s|
    ensures var b, c := if i + 1 < |s| then s[i + 1] else 0, if i + 2 < |s| then s[i + 2] else 0;
            Remaining(s, i) == Quad(Block(s[i], b, c)) + Remaining(s, i + 3)
  {
    hide Quad, Block;
    var t := s[i..];
    assert t[0] == s[i] && (i + 1 < |s| ==> t[1] == s[i + 1]) && (i + 2 < |s| ==> t[2] == s[i + 2]);
    if i + 3 < |s| {
      assert t[3..] == s[i + 3..];
    }
  }

  lemma RemainingEnd(s: Bytes, i: nat)
    requires i >= |s|
    ensures Remaining(s, i) == []
  {
  }

  lemma PaddedAfter(head: Bytes, rest: Bytes, remainder: nat)
    requires |rest| >= 2
    ensures Padded(head + rest, remainder) == head + Padded(rest, remainder)
  {
    assert (head + rest)[..|head + rest| - 1] == head + rest[..|rest| - 1];
    assert (head + rest)[..|head + rest| - 2] == head + rest[..|rest| - 2];
  }

  /** aws_byte_buf: a buffer of fixed capacity of which the first len bytes are in use. */
  class ByteBuf {
    var buffer: array<Byte>
    var len: nat

    ghost predicate Valid()
      reads this
    {
      len <= buffer.Length
    }

    ghost function Contents(): Bytes
      requires Valid()
      reads this, buffer
    {
      buffer[..len]
    }

    constructor (capacity: nat)
      ensures Valid() && Contents() == [] && fresh(buffer) && buffer.Length == capacity
    {
      buffer := new Byte[capacity];
      len := 0;
    }

    /** aws_byte_buf_reserve_relative. */
    method Reserve(additional: nat)
      requires Valid()
      modifies this`buffer
      ensures Valid() && Contents() == old(Contents()) && (buffer == old(buffer) || fresh(buffer))
      ensures len + additional <= buffer.Length
    {
      if len + additional <= buffer.Length {
        return;
      }
      var larger, smaller := new Byte[len + additional], buffer;
      for i := 0 to len
        invariant buffer == smaller && larger[..i] == smaller[..i]
      {
        larger[i] := smaller[i];
        assert larger[..i + 1] == larger[..i] + [larger[i]];
        assert smaller[..i + 1] == smaller[..i] + [smaller[i]];
      }
      buffer := larger;
    }

    /** The loop both hexadecimal encoders share. */
    static method WriteHex(s: Bytes, output: array<Byte>, start: nat)
      requires start + 2 * |s| <= output.Length
      modifies output
      ensures output[..start + 2 * |s|] == old(output[..start]) + HexText(s)
    {
      var written := start;
      assert s[..0] == [];
      for i := 0 to |s|
        invariant written == start + 2 * i
        invariant output[..written] == old(output[..start]) + HexText(s[..i])
      {
        assert s[..i + 1] == s[..i] + [s[i]];
        HexTextAppend(s[..i], s[i]);
        ghost var before := output[..written];
        output[written] := HexDigit(s[i] / 16);
        output[written + 1] := HexDigit(s[i] % 16);
        assert output[..written + 2] == before + [HexDigit(s[i] / 16), HexDigit(s[i] % 16)];
        written := written + 2;
      }
      assert s[..|s|] == s;
    }

    /** aws_hex_encode: the text from the start of the buffer, its length counting the closing zero. */
    method HexEncode(s: Bytes) returns (status: Status)
      requires Valid()
      modifies this`len, buffer
      ensures Valid() && (status == ShortBuffer <==> buffer.Length < 2 * |s| + 1)
      ensures status == ShortBuffer ==> Contents() == old(Contents())
      ensures status != ShortBuffer ==> status == Success && Contents() == HexText(s) + [0]
    {
      if buffer.Length < 2 * |s| + 1 {
        return ShortBuffer;
      }
      HexTextLength(s);
      WriteHex(s, buffer, 0);
      ghost var text := buffer[..2 * |s|];
      buffer[2 * |s|] := 0;
      len := 2 * |s| + 1;
      assert buffer[..len] == text + [0];
      status := Success;
    }

    /** aws_hex_encode_append_dynamic. */
    method HexAppend(s: Bytes)
      requires Valid()
      modifies this, buffer
      ensures Valid() && (buffer == old(buffer) || fresh(buffer))
      ensures Contents() == old(Contents()) + HexText(s)
    {
      Reserve(2 * |s|);
      WriteHex(s, buffer, len);
      len := len + 2 * |s|;
    }

    /** The loop of aws_hex_decode over pairs of digits. */
    static method WritePairs(s: Bytes, output: array<Byte>, start: nat) returns (ok: bool)
      requires |s| % 2 == 0 && start + |s| / 2 <= output.Length
      modifies output
      ensures ok == HexPairs(s).Some?
      ensures Written(old(output[..]), output[..], start, HexPairsDone(s))
    {
      hide HexPairs, HexPairsDone, HexValue, Written;
      PairsDoneDecide(s);
      var i, written := 0, start;
      ghost var done: Bytes := [];
      assert s[0..] == s;
      WrittenNone(output[..], start);
      while i < |s|
        invariant 0 <= i <= |s| && i == 2 * |done| && written == start + |done|
        invariant Written(old(output[..]), output[..], start, done)
        invariant HexPairsDone(s) == done + HexPairsDone(s[i..])
      {
        PairsDoneStep(s, i);
        var high, low := HexValue(s[i]), HexValue(s[i + 1]);
        if high < 0 || low < 0 {
          assert done + [] == done;
          return false;
        }
        ghost var before := output[..];
        ghost var b: Byte := high * 16 + low;
        output[written] := high * 16 + low;
        assert output[..] == before[written := b];
        WrittenMore(old(output[..]), before, start, done, b);
        Assoc(done, [b], HexPairsDone(s[i + 2..]));
        done := done + [b];
        i, written := i + 2, written + 1;
      }
      PairsDoneEnd(s, i);
      assert done + [] == done;
      ok := true;
    }

    /** aws_hex_decode. */
    method HexDecode(s: Bytes) returns (status: Status)
      requires Valid()
      modifies this`len, buffer
      ensures Valid() && (status == ShortBuffer <==> buffer.Length < (|s| + 1) / 2)
      ensures status != ShortBuffer ==> (status == Success <==> HexDecoded(s).Some?) && (status == Success || status == InvalidHex)
      ensures status == Success ==> Contents() == HexDecoded(s).value
      ensures status != Success ==> len == old(len)
      ensures status == ShortBuffer ==> buffer[..] == old(buffer[..])
      ensures status != ShortBuffer ==> Written(old(buffer[..]), buffer[..], 0, HexDone(s))
    {
      hide HexPairs, HexPairsDone, HexValue, Written;
      if buffer.Length < (|s| + 1) / 2 {
        return ShortBuffer;
      }
      var ok;
      if |s| % 2 == 1 {
        var low := HexValue(s[0]);
        if low < 0 {
          WrittenNone(buffer[..], 0);
          return InvalidHex;
        }
        ghost var was := buffer[..];
        ghost var first: Byte := low;
        WrittenNone(was, 0);
        WrittenMore(was, was, 0, [], first);
        buffer[0] := low;
        assert buffer[..] == was[0 := first] && [] + [first] == [first];
        PairsDoneDecide(s[1..]);
        ghost var middle := buffer[..];
        ok := WritePairs(s[1..], buffer, 1);
        WrittenTwice(was, middle, buffer[..], [first], HexPairsDone(s[1..]));
      } else {
        PairsDoneDecide(s);
        ok := WritePairs(s, buffer, 0);
      }
      if !ok {
        return InvalidHex;
      }
      WrittenAll(old(buffer[..]), buffer[..], HexDone(s));
      len := (|s| + 1) / 2;
      status := Success;
    }

    /** One round of the encoding loop. */
    static method WriteQuad(a: Byte, b: Byte, c: Byte, output: array<Byte>, n: nat)
      requires n + 4 <= output.Length
      modifies output
      ensures output[..n + 4] == old(output[..n]) + Quad(Block(a, b, c))
    {
      var block: nat := a;
      block := block * 256;
      block := block + b;
      block := block * 256;
      block := block + c;
      assert block == Block(a, b, c);
      hide Base64Char, Block;
      assert block / 262144 < 64;
      ghost var quad := Quad(block);
      output[n] := Base64Char(block / 262144);
      output[n + 1] := Base64Char(block / 4096 % 64);
      output[n + 2] := Base64Char(block / 64 % 64);
      output[n + 3] := Base64Char(block % 64);
      assert output[n] == quad[0] && output[n + 1] == quad[1] && output[n + 2] == quad[2] && output[n + 3] == quad[3];
      hide Quad;
      assert output[n..n + 4] == quad;
      assert output[..n + 4] == output[..n] + output[n..n + 4];
    }

    /** The encoding loop of aws_base64_encode. */
    static method WriteBlocks(s: Bytes, output: array<Byte>, start: nat)
      requires start + |Unpadded(s)| <= output.Length
      modifies output
      ensures output[..start + |Unpadded(s)|] == old(output[..start]) + Unpadded(s)
    {
      hide Unpadded, Quad, Block, Remaining;
      var i, index := 0, start;
      ghost var done: Bytes := [];
      RemainingStart(s);
      while i < |s|
        invariant 0 <= i && index == start + |done|
        invariant Unpadded(s) == done + Remaining(s, i)
        invariant index <= output.Length && output[..index] == old(output[..start]) + done
      {
        var b, c := if i + 1 < |s| then s[i + 1] else 0, if i + 2 < |s| then s[i + 2] else 0;
        ghost var quad := Quad(Block(s[i], b, c));
        RemainingStep(s, i);
        Assoc(done, quad, Remaining(s, i + 3));
        Assoc(old(output[..start]), done, quad);
        WriteQuad(s[i], b, c, output, index);
        done := done + quad;
        i, index := i + 3, index + 4;
      }
      RemainingEnd(s, i);
    }

    /** aws_base64_encode: the encoding behind what is there, and a zero behind that. */
    method Base64Encode(s: Bytes) returns (status: Status)
      requires Valid()
      modifies this`len, buffer
      ensures Valid() && (status == ShortBuffer <==> buffer.Length < old(len) + EncodedLength(|s|))
      ensures status == ShortBuffer ==> Contents() == old(Contents())
      ensures status != ShortBuffer ==> status == Success && Contents() == old(Contents()) + Base64Text(s)
      ensures status != ShortBuffer ==> len < buffer.Length && buffer[len] == 0
    {
      hide Unpadded, Base64Text, EncodedLength;
      var terminated := EncodedLength(|s|);
      if buffer.Length < len + terminated {
        return ShortBuffer;
      }
      PaddingIsStandard(s);
      ghost var pre, blocks := buffer[..len], Unpadded(s);
      var encoded := terminated - 1;
      WriteBlocks(s, buffer, len);
      if |s| % 3 > 0 {
        WritePadding(buffer, len + encoded, |s| % 3);
        PaddedAfter(pre, blocks, |s| % 3);
      }
      ghost var text := buffer[..len + encoded];
      buffer[len + encoded] := 0;
      assert buffer[..len + encoded] == text;
      len := len + encoded;
      status := Success;
    }

    /** The padding characters over the end of the last block. */
    static method WritePadding(output: array<Byte>, end: nat, remainder: nat)
      requires 2 <= end <= output.Length && 1 <= remainder <= 2
      modifies output
      ensures output[..end] == Padded(old(output[..end]), remainder)
    {
      output[end - 1] := PAD;
      if remainder == 1 {
        output[end - 2] := PAD;
      }
    }

    /** The loop of aws_base64_decode over all blocks but the last. */
    static method DecodeBlocks(s: Bytes, output: array<Byte>) returns (ok: bool)
      requires |s| % 4 == 0 && |s| >= 4 && |s| / 4 * 3 - 3 <= output.Length
      modifies output
      ensures !ok ==> Base64Decoded(s).None? && |Base64Done(s)| <= |s| / 4 * 3 - 3 && Written(old(output[..]), output[..], 0, Base64Done(s))
      ensures ok ==> Base64Decoded(s) == Prepend(output[..|s| / 4 * 3 - 3], Base64Decoded(s[|s| - 4..]))
      ensures ok ==> Base64Done(s) == output[..|s| / 4 * 3 - 3] + Base64Done(s[|s| - 4..])
      ensures output[|s| / 4 * 3 - 3..] == old(output[|s| / 4 * 3 - 3..])
    {
      hide DecodedBlock, DecodedLast, Base64Decoded, Base64Done;
      var count := |s| / 4;
      ghost var was := output[..];
      assert s[0..] == s;
      StartPairs(Base64Decoded(s));
      ok := true;
      for i := 0 to count - 1
        invariant Base64Decoded(s) == Prepend(output[..3 * i], Base64Decoded(s[4 * i..]))
        invariant Base64Done(s) == output[..3 * i] + Base64Done(s[4 * i..])
        invariant output[3 * i..] == was[3 * i..]
      {
        ghost var rest := s[4 * i..];
        ghost var before, middle := output[..3 * i], output[..];
        BlockStep(s, 4 * i);
        TailKept(was, middle, 3 * i, 3 * count - 3);
        var good := DecodeOne(s, 4 * i, output, 3 * i);
        if !good {
          ok := false;
          return;
        }
        TailKept(was, middle, 3 * i, 3 * i + 3);
        PrependMore(before, DecodedBlock(rest).value, Base64Decoded(s[4 * i + 4..]));
        Assoc(before, DecodedBlock(rest).value, Base64Done(s[4 * i + 4..]));
        assert output[..3 * (i + 1)] == before + DecodedBlock(rest).value;
      }
    }

    /** One block without padding. */
    static method DecodeOne(s: Bytes, at: nat, output: array<Byte>, n: nat) returns (good: bool)
      requires at + 4 <= |s| && n + 3 <= output.Length
      modifies output
      ensures good == DecodedBlock(s[at..]).Some? && (!good ==> output[..] == old(output[..]))
      ensures good ==> output[..n + 3] == old(output[..n]) + DecodedBlock(s[at..]).value
      ensures output[..n] == old(output[..n]) && output[n + 3..] == old(output[n + 3..])
    {
      ghost var t := s[at..];
      assert t[0] == s[at] && t[1] == s[at + 1] && t[2] == s[at + 2] && t[3] == s[at + 3];
      good := HasValue(s[at], false) && HasValue(s[at + 1], false) && HasValue(s[at + 2], false) && HasValue(s[at + 3], false);
      if good {
        var v1, v2, v3, v4 := TableValue(s[at]), TableValue(s[at + 1]), TableValue(s[at + 2]), TableValue(s[at + 3]);
        hide TableValue, Byte0, Byte1, Byte2;
        output[n] := Byte0(v1, v2);
        output[n + 1] := Byte1(v2, v3);
        output[n + 2] := Byte2(v3, v4);
        assert output[..n + 3] == output[..n] + [Byte0(v1, v2), Byte1(v2, v3), Byte2(v3, v4)];
      }
    }

    /** The last block. */
    static method DecodeEnd(s: Bytes, at: nat, output: array<Byte>, n: nat) returns (good: bool)
      requires at + 4 == |s| && (DecodedLast(s[at..]).Some? ==> n + |DecodedLast(s[at..]).value| <= output.Length)
      modifies output
      ensures good == DecodedLast(s[at..]).Some?
      ensures !good ==> output[..] == old(output[..])
      ensures good ==> var w := DecodedLast(s[at..]).value;
                       && output[..n + |w|] == old(output[..n]) + w
                       && output[n + |w|..] == old(output[n + |w|..])
    {
      ghost var t := s[at..];
      assert t[0] == s[at] && t[1] == s[at + 1] && t[2] == s[at + 2] && t[3] == s[at + 3];
      good := HasValue(s[at], false) && HasValue(s[at + 1], false) && HasValue(s[at + 2], true) && HasValue(s[at + 3], true);
      if good {
        var v1, v2, v3, v4 := TableValue(s[at]), TableValue(s[at + 1]), TableValue(s[at + 2]), TableValue(s[at + 3]);
        assert v4 <= 64 || v4 == 255;
        hide TableValue, Byte0, Byte1, Byte2;
        ghost var w := DecodedLast(t).value;
        output[n] := Byte0(v1, v2);
        if v3 != 255 {
          output[n + 1] := Byte1(v2, v3);
          if v4 != 255 {
            output[n + 2] := Byte2(v3, v4);
          }
        }
        assert output[n..n + |w|] == w;
        assert output[..n + |w|] == output[..n] + w;
      }
    }

    /** aws_base64_decode: from the start of the buffer, nothing written beyond the computed length. */
    method Base64Decode(s: Bytes) returns (status: Status)
      requires Valid()
      modifies this`len, buffer
      ensures Valid() && (status != Success ==> len == old(len))
      ensures |s| % 4 != 0 ==> status == InvalidBase64 && buffer[..] == old(buffer[..])
      ensures |s| % 4 == 0 ==>
                && (status == ShortBuffer <==> buffer.Length < DecodedLength(s))
                && (status != ShortBuffer ==> (status == Success <==> Base64Decoded(s).Some?) && (status == Success || status == InvalidBase64))
                && (status == ShortBuffer ==> buffer[..] == old(buffer[..]))
                && (status != ShortBuffer ==> |Base64Done(s)| <= DecodedLength(s) && Written(old(buffer[..]), buffer[..], 0, Base64Done(s)))
                && (status == Success ==> len == DecodedLength(s) && var w := Base64Decoded(s).value;
                                          |w| <= len && buffer[..|w|] == w && buffer[|w|..] == old(buffer[|w|..]))
    {
      hide Base64Decoded, Base64Done, DecodedLast, DecodedLength;
      if |s| % 4 != 0 {
        return InvalidBase64;
      }
      if buffer.Length < DecodedLength(s) {
        return ShortBuffer;
      }
      if s == [] {
        NothingDecoded();
      } else {
        LengthFits(s);
        var n := |s| / 4 * 3 - 3;
        var ok := DecodeBlocks(s, buffer);
        if !ok {
          return InvalidBase64;
        }
        ghost var middle := buffer[..];
        LastDone(s[|s| - 4..]);
        DoneIsDecoded(s);
        ok := DecodeEnd(s, |s| - 4, buffer, n);
        if !ok {
          return InvalidBase64;
        }
        TailKept(old(buffer[..]), middle, n, |Base64Done(s)|);
        WritesWithin(s);
      }
      len := DecodedLength(s);
      status := Success;
    }
  }

  /** All blocks but the last fit in the computed length, and the last with them. */
  lemma LengthFits(s: Bytes)
    requires |s| % 4 == 0 && s != []
    ensures |s| / 4 * 3 - 3 <= DecodedLength(s)
    ensures var r := DecodedLast(s[|s| - 4..]);
            && Base64Decoded(s[|s| - 4..]) == r
            && (r.Some? ==> |s| / 4 * 3 - 3 + |r.value| <= DecodedLength(s))
  {
    var last := s[|s| - 4..];
    assert last[3] == s[|s| - 1] && last[2] == s[|s| - 2];
    if DecodedLast(last).Some? {
      WritesWithin(last);
    }
    hide DecodedLast;
  }

  /** One block that is not the last. */
  lemma BlockStep(s: Bytes, at: nat)
    requires |s| % 4 == 0 && at % 4 == 0 && at + 4 < |s|
    ensures var block := DecodedBlock(s[at..]);
            && (block.None? ==> Base64Decoded(s[at..]).None? && Base64Done(s[at..]) == [])
            && (block.Some? ==> Base64Decoded(s[at..]) == Prepend(block.value, Base64Decoded(s[at + 4..])))
            && (block.Some? ==> Base64Done(s[at..]) == block.value + Base64Done(s[at + 4..]))
  {
    hide DecodedBlock, DecodedLast;
    assert s[at..][4..] == s[at + 4..];
  }

  lemma LastDone(s: Bytes)
    requires |s| == 4
    ensures Base64Done(s) == match DecodedLast(s) case None => [] case Some(w) => w
  {
    hide DecodedLast;
  }

  lemma PairsDoneStep(s: Bytes, i: nat)
    requires |s| % 2 == 0 && i % 2 == 0 && i < |s|
    ensures var high, low := HexValue(s[i]), HexValue(s[i + 1]);
            HexPairsDone(s[i..]) == if high < 0 || low < 0 then [] else [high * 16 + low] + HexPairsDone(s[i + 2..])
  {
    hide HexValue;
    assert s[i..][0] == s[i] && s[i..][1] == s[i + 1] && s[i..][2..] == s[i + 2..];
  }

  lemma PairsDoneEnd(s: Bytes, i: nat)
    requires i == |s|
    ensures HexPairsDone(s[i..]) == []
  {
  }

  lemma TailKept(a: Bytes, b: Bytes, n: nat, m: nat)
    requires |a| == |b| && n <= m <= |a| && a[n..] == b[n..]
    ensures a[m..] == b[m..]
  {
    assert a[m..] == a[n..][m - n..] && b[m..] == b[n..][m - n..];
  }

  lemma NothingDecoded()
    ensures Base64Decoded([]) == Some([]) && Base64Done([]) == [] && DecodedLength([]) == 0
  {
  }

  lemma StartPairs(r: Option<Bytes>)
    ensures r == Prepend([], r)
  {
    assert r.Some? ==> [] + r.value == r.value;
  }

  lemma PrependMore(a: Bytes, b: Bytes, r: Option<Bytes>)
    ensures Prepend(a, Prepend(b, r)) == Prepend(a + b, r)
  {
    assert r.Some? ==> a + (b + r.value) == a + b + r.value;
  }
}
