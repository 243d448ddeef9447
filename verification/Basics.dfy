/** Optional values, shared by all components. */
module Options {
  datatype Option<+T> = None | Some(value: T)
}

/** Lists without repetition, lists with an element left out, and regrouping. */
module Sequences {
  ghost predicate NoDup<T>(s: seq<T>) {
    forall i, j :: 0 <= i < j < |s| ==> s[i] != s[j]
  }

  function Without<T>(s: seq<T>, i: nat): (r: seq<T>)
    requires i < |s|
  {
    s[..i] + s[i + 1..]
  }

  lemma BagWithout<T>(s: seq<T>, i: nat)
    requires i < |s|
    ensures multiset(s) == multiset(Without(s, i)) + multiset{s[i]}
  {
    assert s == s[..i] + [s[i]] + s[i + 1..];
  }

  lemma Assoc<T>(a: seq<T>, b: seq<T>, c: seq<T>)
    ensures a + b + c == a + (b + c)
  {
  }
}

/** Bytes, and the hexadecimal digits that both the codecs and the JSON parser read. */
module Octets {
  import opened Options

  type Byte = x: int | 0 <= x < 256
  type Bytes = seq<Byte>

  /** The value of a hexadecimal digit of either case; -1 for any other byte. */
  function HexValue(b: Byte): (v: int)
    ensures -1 <= v < 16
  {
    if 48 <= b <= 57 then b - 48
    else if 65 <= b <= 70 then b - 55
    else if 97 <= b <= 102 then b - 87
    else -1
  }

  /** The lower-case digit of a value below 16. */
  function HexDigit(v: nat): Byte
    requires v < 16
  {
    if v < 10 then 48 + v else 87 + v
  }

  const LOWER_DIGITS: string := "0123456789abcdef"
  const UPPER_DIGITS: string := "0123456789ABCDEF"

  /** Digits are written in lower case and read in either case, and nothing else is a digit. */
  lemma HexDigitsAre(v: nat, b: Byte)
    requires v < 16
    ensures HexDigit(v) == LOWER_DIGITS[v] as int
    ensures b == LOWER_DIGITS[v] as int || b == UPPER_DIGITS[v] as int ==> HexValue(b) == v
    ensures HexValue(b) == v ==> b == LOWER_DIGITS[v] as int || b == UPPER_DIGITS[v] as int
  {
  }

  /** A result with bytes put in front of it. */
  function Prepend(a: Bytes, r: Option<Bytes>): Option<Bytes> {
    match r
    case None => None
    case Some(b) => Some(a + b)
  }
}
