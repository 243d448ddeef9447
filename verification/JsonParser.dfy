/**
  The parser of source/external/cJSON.c as it runs: an offset and a depth that
  advance over a zero-terminated buffer, an output buffer sized by a first scan
  and filled by a second, and loops that grow the lists of children.
 */
module JsonParsers {
  import opened Options
  import opened Octets
  import opened JsonStrings
  import opened JsonTrees

  // ---------- positions in the whole buffer ----------

  /** What is still to come, after output has been written. */
  function Pending(c: Bytes, p: nat, end: nat): Option<Bytes>
    requires p <= end + 1 && end < |c|
  {
    if p <= end then UnescapeAt(c, p, end) else Some([])
  }

  /** Where the second scan stops: at the first malformed escape, or at or just behind the closing quote. */
  function StopAt(c: Bytes, p: nat, end: nat): (r: nat)
    requires p <= end + 1 && end < |c|
    ensures p <= r <= end + 1
    decreases end + 1 - p
  {
    if p >= end then p
    else
      match StepAt(c, p, end)
      case BadLiteral => p
      case Literal(k, _) => if k == 0 then p else StopAt(c, p + k, end)
  }

  /** Where a failed parse_string leaves the offset. */
  function FailAt(c: Bytes, o: nat): (r: nat)
    requires o < |c|
    ensures o < r <= |c|
  {
    if c[o] != QUOTE || ScanEnd(c, o + 1).NoEnd? then o + 1 else StopAt(c, o + 1, ScanEnd(c, o + 1).at)
  }

  lemma StopRound(c: Bytes, p: nat, end: nat)
    requires p < end < |c|
    ensures var r := StepAt(c, p, end);
            && (r.BadLiteral? ==> StopAt(c, p, end) == p)
            && (r.Literal? ==> 0 < r.length && p + r.length <= end + 1 && StopAt(c, p, end) == StopAt(c, p + r.length, end))
  {
    hide Step;
  }

  lemma PendingRound(c: Bytes, p: nat, end: nat, written: Bytes)
    requires p < end < |c|
    ensures var r := StepAt(c, p, end);
            && (r.BadLiteral? ==> Prepend(written, Pending(c, p, end)).None?)
            && (r.Literal? ==> 0 < r.length && p + r.length <= end + 1)
            && (r.Literal? ==>
                  Prepend(written, Pending(c, p, end)) == Prepend(written + r.bytes, Pending(c, p + r.length, end)))
  {
    hide UnescapeAt, StepAt;
    UnescapeAtEnd(c, end);
    UnescapeRound(c, p, end);
    var r := StepAt(c, p, end);
    if r.Literal? {
      var later := Pending(c, p + r.length, end);
      assert Pending(c, p, end) == Prepend(r.bytes, later) by {
        assert r.bytes + [] == r.bytes;
      }
      assert later.Some? ==> written + (r.bytes + later.value) == written + r.bytes + later.value;
    }
  }

  /** What is left of a buffer from an offset on. */
  ghost function From(c: Bytes, o: nat): (r: Bytes)
    requires o <= |c|
    ensures |r| == |c| - o && (Terminated(c) && o < |c| ==> Terminated(r))
  {
    c[o..]
  }

  /** ParseString in positions of the whole buffer. */
  lemma ParseStringAt(c: Bytes, o: nat)
    requires Terminated(c) && o < |c|
    ensures c[o] != QUOTE || ScanEnd(c, o + 1).NoEnd? ==> ParseString(From(c, o)).Fail?
    ensures c[o] == QUOTE && ScanEnd(c, o + 1).End? ==>
              && ScanEnd(c, o + 1).at + 1 < |c|
              && ParseString(From(c, o)) ==
                 StringOutcome(UnescapeAt(c, o + 1, ScanEnd(c, o + 1).at), From(c, ScanEnd(c, o + 1).at + 1))
  {
    hide ScanEnd, Unescape;
    var s, scan := c[o..], ScanEnd(c, o + 1);
    ScanShift(c, o, 1);
    assert s[0] == c[o];
    if scan.End? {
      assert s[1..] == c[o + 1..];
      assert s[scan.at - o + 1..] == c[scan.at + 1..];
      assert ScanEnd(s, 1).at - 1 == scan.at - (o + 1);
    }
  }

  function StringOutcome(r: Option<Bytes>, rest: Bytes): Parsed<Bytes> {
    match r case None => Fail case Some(bytes) => Ok(bytes, rest)
  }

  // ---------- lists ----------

  function Join(a: Items, b: Items): Items {
    match a case NoItems => b case Item(v, next) => Item(v, Join(next, b))
  }

  lemma {:induction false} JoinItem(a: Items, v: Json, b: Items)
    ensures Join(Join(a, Item(v, NoItems)), b) == Join(a, Item(v, b)) && Join(a, NoItems) == a
  {
    if a.Item? {
      JoinItem(a.next, v, b);
    }
  }

  function JoinMembers(a: Members, b: Members): Members {
    match a case NoMembers => b case Member(name, v, next) => Member(name, v, JoinMembers(next, b))
  }

  lemma {:induction false} JoinMember(a: Members, name: Bytes, v: Json, b: Members)
    ensures JoinMembers(JoinMembers(a, Member(name, v, NoMembers)), b) == JoinMembers(a, Member(name, v, b))
    ensures JoinMembers(a, NoMembers) == a
  {
    if a.Member? {
      JoinMember(a.next, name, v, b);
    }
  }

  /** The outcome of the whole list, given what was read and the outcome of the remainder. */
  function WithItems(a: Items, r: Parsed<Items>): Parsed<Items> {
    match r case Fail => Fail case Ok(b, rest) => Ok(Join(a, b), rest)
  }

  function WithMembers(a: Members, r: Parsed<Members>): Parsed<Members> {
    match r case Fail => Fail case Ok(b, rest) => Ok(JoinMembers(a, b), rest)
  }

  /** One round of the loop of parse_array, seen from the whole list. */
  lemma ItemsRound(acc: Items, s: Bytes, depth: nat)
    requires Terminated(s)
    ensures var whole, v := WithItems(acc, ParseItems(s, depth)), ParseValue(SkipWhitespace(s), depth);
            && (v.Fail? ==> whole.Fail?)
            && (v.Ok? ==>
                  var t, longer := SkipWhitespace(v.rest), Join(acc, Item(v.value, NoItems));
                  && (t[0] == COMMA ==> whole == WithItems(longer, ParseItems(t[1..], depth)))
                  && (t[0] == CLOSE_ARRAY ==> whole == Ok(longer, t[1..]))
                  && (t[0] != COMMA && t[0] != CLOSE_ARRAY ==> whole.Fail?))
  {
    hide ParseValue, SkipWhitespace;
    var v := ParseValue(SkipWhitespace(s), depth);
    if v.Ok? {
      var t := SkipWhitespace(v.rest);
      if t[0] == COMMA {
        var r := ParseItems(t[1..], depth);
        if r.Ok? {
          JoinItem(acc, v.value, r.value);
        }
      }
    }
  }

  /** One round of the loop of parse_object, seen from the whole list. */
  lemma MembersRound(acc: Members, s: Bytes, depth: nat)
    requires Terminated(s)
    ensures var whole, name := WithMembers(acc, ParseMembers(s, depth)), ParseString(SkipWhitespace(s));
            && (name.Fail? ==> whole.Fail?)
            && (name.Ok? ==>
                  var v := ParseNamed(name.rest, depth);
                  && (v.Fail? ==> whole.Fail?)
                  && (v.Ok? ==>
                        var t, longer := SkipWhitespace(v.rest), JoinMembers(acc, Member(name.value, v.value, NoMembers));
                        && (t[0] == COMMA ==> whole == WithMembers(longer, ParseMembers(t[1..], depth)))
                        && (t[0] == CLOSE_OBJECT ==> whole == Ok(longer, t[1..]))
                        && (t[0] != COMMA && t[0] != CLOSE_OBJECT ==> whole.Fail?)))
  {
    hide ParseString, ParseNamed, SkipWhitespace;
    var name := ParseString(SkipWhitespace(s));
    if name.Ok? {
      var v := ParseNamed(name.rest, depth);
      if v.Ok? {
        var t := SkipWhitespace(v.rest);
        if t[0] == COMMA {
          var r := ParseMembers(t[1..], depth);
          if r.Ok? {
            JoinMember(acc, name.value, v.value, r.value);
          }
        }
      }
    }
  }

  lemma ItemsFail(acc: Items, s: Bytes, depth: nat)
    requires Terminated(s) && ParseValue(SkipWhitespace(s), depth).Fail?
    ensures WithItems(acc, ParseItems(s, depth)).Fail?
  {
    hide ParseValue, SkipWhitespace, ParseItems, WithItems;
    ItemsRound(acc, s, depth);
  }

  /** The same round in the buffer, from byte o to the byte o' behind the value and its blanks. */
  lemma ItemsRoundAt(acc: Items, c: Bytes, o: nat, depth: nat, v: Json, o': nat)
    requires Terminated(c) && o < |c| && o' < |c|
    requires var p := ParseValue(SkipWhitespace(From(c, o)), depth); p.Ok? && p.value == v && SkipWhitespace(p.rest) == From(c, o')
    ensures var whole, longer := WithItems(acc, ParseItems(From(c, o), depth)), Join(acc, Item(v, NoItems));
            && (c[o'] == COMMA ==> o' + 1 < |c| && whole == WithItems(longer, ParseItems(From(c, o' + 1), depth)))
            && (c[o'] != COMMA ==> whole == if c[o'] == CLOSE_ARRAY then Ok(longer, From(c, o' + 1)) else Fail)
  {
    hide ParseValue, SkipWhitespace, ParseItems, WithItems, Join;
    ItemsRound(acc, From(c, o), depth);
    assert c[o'..][1..] == c[o' + 1..];
  }

  lemma MembersFail(acc: Members, s: Bytes, depth: nat)
    requires Terminated(s)
    requires var name := ParseString(SkipWhitespace(s)); name.Fail? || ParseNamed(name.rest, depth).Fail?
    ensures WithMembers(acc, ParseMembers(s, depth)).Fail?
  {
    hide ParseString, ParseNamed, SkipWhitespace, ParseMembers, WithMembers;
    MembersRound(acc, s, depth);
  }

  lemma MembersRoundAt(acc: Members, c: Bytes, o: nat, depth: nat, name: Bytes, v: Json, o': nat)
    requires Terminated(c) && o < |c| && o' < |c|
    requires var n := ParseString(SkipWhitespace(From(c, o)));
             && n.Ok? && n.value == name
             && var p := ParseNamed(n.rest, depth); p.Ok? && p.value == v && SkipWhitespace(p.rest) == From(c, o')
    ensures var whole, longer := WithMembers(acc, ParseMembers(From(c, o), depth)), JoinMembers(acc, Member(name, v, NoMembers));
            && (c[o'] == COMMA ==> o' + 1 < |c| && whole == WithMembers(longer, ParseMembers(From(c, o' + 1), depth)))
            && (c[o'] != COMMA ==> whole == if c[o'] == CLOSE_OBJECT then Ok(longer, From(c, o' + 1)) else Fail)
  {
    hide ParseString, ParseNamed, SkipWhitespace, ParseMembers, WithMembers, JoinMembers;
    MembersRound(acc, From(c, o), depth);
    assert c[o'..][1..] == c[o' + 1..];
  }

  // ---------- the parse buffer ----------

  class ParseBuffer {
    const content: Bytes
    var offset: nat
    var depth: nat

    ghost predicate Valid()
      reads this
    {
      Terminated(content) && offset < |content|
    }

    ghost function Rest(): Bytes
      requires offset <= |content|
      reads this
    {
      From(content, offset)
    }

    constructor (text: Bytes)
      ensures Valid() && content == text + [0] && offset == 0 && depth == 0
    {
      content := text + [0];
      offset, depth := 0, 0;
    }

    /** buffer_skip_whitespace. */
    method SkipBlanks()
      requires Valid()
      modifies this`offset
      ensures Valid() && Rest() == SkipWhitespace(old(Rest())) && old(offset) <= offset
    {
      while offset < |content| && content[offset] <= 32
        invariant old(offset) <= offset <= |content|
        invariant offset < |content| ==> SkipWhitespace(old(Rest())) == SkipWhitespace(Rest())
        invariant offset == |content| ==> SkipWhitespace(old(Rest())) == content[|content| - 1..]
      {
        assert content[offset..][1..] == content[offset + 1..];
        offset := offset + 1;
      }
      if offset == |content| {
        offset := offset - 1;
      }
    }

    /** The first loop of parse_string. */
    method MeasureString() returns (found: bool, end: nat, skipped: nat)
      requires Valid() && content[offset] == QUOTE
      ensures found == ScanEnd(content, offset + 1).End?
      ensures found ==> ScanEnd(content, offset + 1) == End(end, skipped)
    {
      end, skipped := offset + 1, 0;
      while end < |content| && content[end] != QUOTE
        invariant offset < end <= |content|
        invariant ScanEnd(content, offset + 1) ==
                  match ScanEnd(content, end) case NoEnd => NoEnd case End(at, k) => End(at, k + skipped)
        decreases |content| - end
      {
        if content[end] == BACKSLASH {
          if end + 1 >= |content| {
            return false, end, skipped;
          }
          skipped := skipped + 1;
          end := end + 1;
        }
        end := end + 1;
      }
      found := end < |content|;
    }

    /** The second loop of parse_string: every write lands in the buffer the first loop sized. */
    method FillString(end: nat, output: array<Byte>) returns (good: bool, n: nat, stop: nat)
      requires Valid() && content[offset] == QUOTE && ScanEnd(content, offset + 1).End?
      requires end == ScanEnd(content, offset + 1).at
      requires output.Length == end - offset - ScanEnd(content, offset + 1).skipped + 1
      modifies output
      ensures stop == StopAt(content, offset + 1, end)
      ensures good == UnescapeAt(content, offset + 1, end).Some?
      ensures good ==> n < output.Length && UnescapeAt(content, offset + 1, end) == Some(output[..n])
    {
      hide ScanEnd, Ending, UnescapeAt, StepAt, StopAt;
      ghost var q := offset + 1;
      ScanCountsTokens(content, q);
      n, stop := 0, offset + 1;
      PendingStart(content, q, end);
      while stop < end
        invariant q <= stop <= end + 1
        invariant StopAt(content, q, end) == StopAt(content, stop, end)
        invariant n + Ending(content, q, end, stop) + 1 < output.Length
        invariant UnescapeAt(content, q, end) == Prepend(output[..n], Pending(content, stop, end))
        decreases end - stop
      {
        PendingRound(content, stop, end, output[..n]);
        StopRound(content, stop, end);
        ghost var r := StepAt(content, stop, end);
        if r.Literal? {
          StepBounded(content, q, stop);
        }
        var length, m := WriteStep(stop, end, output, n);
        if length == 0 {
          return false, n, stop;
        }
        stop, n := stop + length, m;
      }
      good := true;
      StopDone(content, stop, end);
      PendingDone(content, stop, end, output[..n]);
    }

    /** One round of parse_string's second loop; length 0 means the text is malformed. */
    method WriteStep(p: nat, end: nat, output: array<Byte>, n: nat) returns (length: nat, m: nat)
      requires Valid() && p < end < |content|
      requires var r := StepAt(content, p, end); n <= output.Length && (r.Literal? ==> n + |r.bytes| <= output.Length)
      modifies output
      ensures var r := StepAt(content, p, end);
              && (r.BadLiteral? ==> length == 0)
              && (r.Literal? ==> 0 < length == r.length && m == n + |r.bytes| <= output.Length && output[..m] == old(output[..n]) + r.bytes)
    {
      hide Utf16Literal, Utf8;
      ghost var s := content[p..];
      assert s[0] == content[p] && s[1] == content[p + 1];
      if content[p] != BACKSLASH {
        output[n] := content[p];
        return 1, n + 1;
      }
      if content[p + 1] == 117 {
        length, m := WriteLiteral(p, end, output, n);
        return;
      }
      if Unescaped(content[p + 1]) < 0 {
        return 0, n;
      }
      output[n] := Unescaped(content[p + 1]);
      return 2, n + 1;
    }

    /** utf16_literal_to_utf8. */
    method WriteLiteral(p: nat, end: nat, output: array<Byte>, n: nat) returns (length: nat, m: nat)
      requires p < end < |content| && n <= output.Length
      requires var r := Utf16Literal(content[p..], end - p); r.Literal? ==> n + |r.bytes| <= output.Length
      modifies output
      ensures var r := Utf16Literal(content[p..], end - p);
              && (r.BadLiteral? ==> length == 0)
              && (r.Literal? ==> 0 < length == r.length && m == n + |r.bytes| <= output.Length && output[..m] == old(output[..n]) + r.bytes)
    {
      hide Utf8, ParseHex4;
      ghost var s := content[p..];
      if end - p < 6 {
        return 0, n;
      }
      var first := ReadHex4(p + 2);
      assert s[2..] == content[p + 2..];
      Hex4Bound(s[2..]);
      if 0xDC00 <= first <= 0xDFFF {
        return 0, n;
      }
      var codepoint := first;
      length := 6;
      if 0xD800 <= first <= 0xDBFF {
        length := 12;
        if end - (p + 6) < 6 || content[p + 6] != BACKSLASH || content[p + 7] != 117 {
          return 0, n;
        }
        var second := ReadHex4(p + 8);
        assert s[8..] == content[p + 8..];
        if second < 0xDC00 || second > 0xDFFF {
          return 0, n;
        }
        codepoint := 0x10000 + first % 1024 * 1024 + second % 1024;
      }
      m := WriteUtf8(codepoint, output, n);
    }

    /** parse_hex4. */
    method ReadHex4(p: nat) returns (h: nat)
      requires p + 4 <= |content|
      ensures h == ParseHex4(content[p..])
    {
      h := 0;
      ghost var s := content[p..];
      for i := 0 to 4
        invariant i == 0 ==> h == 0
        invariant forall k :: 0 <= k < i ==> HexValue(s[k]) >= 0
        invariant i == 1 ==> h == 16 * HexValue(s[0])
        invariant i == 2 ==> h == 16 * (16 * HexValue(s[0]) + HexValue(s[1]))
        invariant i == 3 ==> h == 16 * (16 * (16 * HexValue(s[0]) + HexValue(s[1])) + HexValue(s[2]))
        invariant i == 4 ==> h == 16 * (16 * (16 * HexValue(s[0]) + HexValue(s[1])) + HexValue(s[2])) + HexValue(s[3])
      {
        var digit := HexValue(content[p + i]);
        assert s[i] == content[p + i];
        if digit < 0 {
          return 0;
        }
        h := h + digit;
        if i < 3 {
          h := h * 16;
        }
      }
    }

    /** parse_string. */
    method ReadString() returns (r: Option<Bytes>)
      requires Valid()
      modifies this`offset
      ensures old(offset) <= offset <= |content| && (r.Some? ==> Valid())
      ensures Matches(ParseString(old(Rest())), r)
      ensures r.None? ==> offset == FailAt(content, old(offset))
    {
      hide ScanEnd, Unescape, UnescapeAt, StopAt, ParseString, From;
      ParseStringAt(content, offset);
      if content[offset] != QUOTE {
        offset := offset + 1;
        return None;
      }
      var found, end, skipped := MeasureString();
      if !found {
        offset := offset + 1;
        return None;
      }
      var allocation := end - offset - skipped;
      var output := new Byte[allocation + 1];
      var good, n, stop := FillString(end, output);
      if !good {
        offset := stop;
        return None;
      }
      output[n] := 0;
      offset := end + 1;
      r := Some(output[..n]);
    }

    /** parse_value, without numbers. */
    method ReadValue() returns (r: Option<Json>)
      requires Valid()
      modifies this
      ensures old(offset) <= offset <= |content| && (r.Some? ==> Valid())
      ensures Matches(ParseValue(old(Rest()), old(depth)), r) && (r.Some? ==> depth == old(depth))
      decreases |content| - offset, 1
    {
      hide ParseString, ParseArray, ParseObject;
      ghost var s := Rest();
      if StartsWith(content[offset..], NULL_TEXT) {
        After(s, NULL_TEXT);
        assert s[4..] == content[offset + 4..];
        offset := offset + 4;
        return Some(Null);
      }
      if StartsWith(content[offset..], FALSE_TEXT) {
        After(s, FALSE_TEXT);
        assert s[5..] == content[offset + 5..];
        offset := offset + 5;
        return Some(False);
      }
      if StartsWith(content[offset..], TRUE_TEXT) {
        After(s, TRUE_TEXT);
        assert s[4..] == content[offset + 4..];
        offset := offset + 4;
        return Some(True);
      }
      if content[offset] == QUOTE {
        var bytes := ReadString();
        r := if bytes.None? then None else Some(Str(bytes.value));
      } else if content[offset] == OPEN_ARRAY {
        r := ReadArray();
      } else if content[offset] == OPEN_OBJECT {
        r := ReadObject();
      } else {
        r := None;
      }
    }

    ghost predicate Matches<T>(expected: Parsed<T>, r: Option<T>)
      requires offset <= |content|
      reads this
    {
      match expected case Fail => r.None? case Ok(v, rest) => r == Some(v) && Rest() == rest
    }

    /** parse_array. */
    method ReadArray() returns (r: Option<Json>)
      requires Valid() && content[offset] == OPEN_ARRAY
      modifies this
      ensures old(offset) <= offset <= |content| && (r.Some? ==> Valid())
      ensures Matches(ParseArray(old(Rest()), old(depth)), r) && (r.Some? ==> depth == old(depth))
      decreases |content| - offset, 0
    {
      hide ParseItems, SkipWhitespace;
      if depth >= NESTING_LIMIT {
        return None;
      }
      depth := depth + 1;
      assert content[offset..][1..] == content[offset + 1..];
      offset := offset + 1;
      SkipBlanks();
      if content[offset] == CLOSE_ARRAY {
        depth := depth - 1;
        offset := offset + 1;
        return Some(Arr(NoItems));
      }
      var items := ReadItems();
      if items.None? {
        return None;
      }
      depth := depth - 1;
      r := Some(Arr(items.value));
    }

    /** The loop of parse_array, with the offset stepped back to the byte before the first element. */
    method ReadItems() returns (r: Option<Items>)
      requires Valid() && offset > 0
      modifies this
      ensures old(offset) - 1 <= offset <= |content| && (r.Some? ==> Valid())
      ensures Matches(ParseItems(old(Rest()), old(depth)), r) && (r.Some? ==> depth == old(depth))
      decreases |content| - offset, 2
    {
      hide ParseValue, ParseItems, SkipWhitespace, From, WithItems, Join;
      ghost var whole := ParseItems(Rest(), depth);
      var acc := NoItems;
      var more := true;
      offset := offset - 1;
      WithNone(whole);
      while more
        invariant old(offset) - 1 <= offset < |content| && depth == old(depth) && Terminated(content)
        invariant more ==> offset + 1 < |content| && whole == WithItems(acc, ParseItems(From(content, offset + 1), depth))
        invariant !more ==> whole == if content[offset] == CLOSE_ARRAY then Ok(acc, From(content, offset + 1)) else Fail
        decreases |content| - offset, more
      {
        offset := offset + 1;
        ghost var o := offset;
        SkipBlanks();
        var v := ReadValue();
        if v.None? {
          ItemsFail(acc, From(content, o), old(depth));
          return None;
        }
        SkipBlanks();
        ItemsRoundAt(acc, content, o, depth, v.value, offset);
        acc := Join(acc, Item(v.value, NoItems));
        more := content[offset] == COMMA;
      }
      if content[offset] != CLOSE_ARRAY {
        return None;
      }
      offset := offset + 1;
      r := Some(acc);
    }

    /** parse_object. */
    method ReadObject() returns (r: Option<Json>)
      requires Valid() && content[offset] == OPEN_OBJECT
      modifies this
      ensures old(offset) <= offset <= |content| && (r.Some? ==> Valid())
      ensures Matches(ParseObject(old(Rest()), old(depth)), r) && (r.Some? ==> depth == old(depth))
      decreases |content| - offset, 0
    {
      hide ParseMembers, SkipWhitespace;
      if depth >= NESTING_LIMIT {
        return None;
      }
      depth := depth + 1;
      assert content[offset..][1..] == content[offset + 1..];
      offset := offset + 1;
      SkipBlanks();
      if content[offset] == CLOSE_OBJECT {
        depth := depth - 1;
        offset := offset + 1;
        return Some(Obj(NoMembers));
      }
      var members := ReadMembers();
      if members.None? {
        return None;
      }
      depth := depth - 1;
      r := Some(Obj(members.value));
    }

    /** The colon and the value of a member. */
    method ReadNamed() returns (r: Option<Json>)
      requires Valid()
      modifies this
      ensures old(offset) <= offset <= |content| && (r.Some? ==> Valid())
      ensures Matches(ParseNamed(old(Rest()), old(depth)), r) && (r.Some? ==> depth == old(depth))
      decreases |content| - offset, 2
    {
      hide ParseValue, SkipWhitespace;
      SkipBlanks();
      if content[offset] != COLON {
        return None;
      }
      assert content[offset..][1..] == content[offset + 1..];
      offset := offset + 1;
      SkipBlanks();
      r := ReadValue();
    }

    /** The loop of parse_object, with the offset stepped back to the byte before the first name. */
    method ReadMembers() returns (r: Option<Members>)
      requires Valid() && offset > 0
      modifies this
      ensures old(offset) - 1 <= offset <= |content| && (r.Some? ==> Valid())
      ensures Matches(ParseMembers(old(Rest()), old(depth)), r) && (r.Some? ==> depth == old(depth))
      decreases |content| - offset, 3
    {
      hide ParseNamed, ParseString, ParseMembers, SkipWhitespace, From, WithMembers, JoinMembers;
      ghost var whole := ParseMembers(Rest(), depth);
      var acc := NoMembers;
      var more := true;
      offset := offset - 1;
      WithNoMembers(whole);
      while more
        invariant old(offset) - 1 <= offset < |content| && depth == old(depth) && Terminated(content)
        invariant more ==> offset + 1 < |content| && whole == WithMembers(acc, ParseMembers(From(content, offset + 1), depth))
        invariant !more ==> whole == if content[offset] == CLOSE_OBJECT then Ok(acc, From(content, offset + 1)) else Fail
        decreases |content| - offset, more
      {
        offset := offset + 1;
        ghost var o := offset;
        SkipBlanks();
        var name := ReadString();
        if name.None? {
          MembersFail(acc, From(content, o), depth);
          return None;
        }
        var v := ReadNamed();
        if v.None? {
          MembersFail(acc, From(content, o), old(depth));
          return None;
        }
        SkipBlanks();
        MembersRoundAt(acc, content, o, depth, name.value, v.value, offset);
        acc := JoinMembers(acc, Member(name.value, v.value, NoMembers));
        more := content[offset] == COMMA;
      }
      if content[offset] != CLOSE_OBJECT {
        return None;
      }
      offset := offset + 1;
      r := Some(acc);
    }
  }

  /** cJSON_Parse. */
  method ParseText(text: Bytes) returns (r: Option<Json>)
    ensures r == Parse(text)
  {
    hide ParseValue, SkipWhitespace;
    var buffer := new ParseBuffer(text);
    ghost var s := text + [0];
    if |buffer.content| > 4 && buffer.content[..3] == [0xEF, 0xBB, 0xBF] {
      buffer.offset := 3;
    }
    assert buffer.Rest() == SkipBom(s);
    buffer.SkipBlanks();
    r := buffer.ReadValue();
  }

  lemma WithNoMembers(r: Parsed<Members>)
    ensures WithMembers(NoMembers, r) == r
  {
  }

  lemma WithNone(r: Parsed<Items>)
    ensures WithItems(NoItems, r) == r
  {
  }

  lemma PendingStart(c: Bytes, p: nat, end: nat)
    requires p <= end < |c|
    ensures UnescapeAt(c, p, end) == Prepend([], Pending(c, p, end))
  {
    hide UnescapeAt;
    var r := UnescapeAt(c, p, end);
    assert r.Some? ==> [] + r.value == r.value;
  }

  lemma StopDone(c: Bytes, p: nat, end: nat)
    requires end <= p <= end + 1 && end < |c|
    ensures StopAt(c, p, end) == p
  {
  }

  lemma PendingDone(c: Bytes, p: nat, end: nat, written: Bytes)
    requires end <= p <= end + 1 && end < |c|
    ensures Prepend(written, Pending(c, p, end)) == Some(written)
  {
    assert written + [] == written;
  }

  /** The UTF-8 loop of utf16_literal_to_utf8, last byte first. */
  method WriteUtf8(codepoint: nat, output: array<Byte>, n: nat) returns (m: nat)
    requires codepoint <= 0x10FFFF && n + |Utf8(codepoint)| <= output.Length
    modifies output
    ensures m == n + |Utf8(codepoint)| && output[..m] == old(output[..n]) + Utf8(codepoint)
  {
    hide Utf8, Shifted;
    var length := if codepoint < 0x80 then 1 else if codepoint < 0x800 then 2 else if codepoint < 0x10000 then 3 else 4;
    var mark := if length == 1 then 0 else if length == 2 then 0xC0 else if length == 3 then 0xE0 else 0xF0;
    var position := length - 1;
    var left := codepoint;
    Utf8Lead(codepoint, length, mark);
    while position > 0
      invariant 0 <= position < length
      invariant output[..n] == old(output[..n])
      invariant left == Shifted(codepoint, length - 1 - position)
      invariant forall i :: position < i < length ==> output[n + i] == Utf8(codepoint)[i]
    {
      Utf8Next(codepoint, position);
      output[n + position] := 0x80 + left % 64;
      left := left / 64;
      position := position - 1;
    }
    output[n] := mark + left;
    m := n + length;
    assert output[n..m] == Utf8(codepoint);
    assert output[..m] == output[..n] + output[n..m];
  }

  lemma Utf8Lead(codepoint: nat, length: nat, mark: nat)
    requires codepoint <= 0x10FFFF
    requires length == if codepoint < 0x80 then 1 else if codepoint < 0x800 then 2 else if codepoint < 0x10000 then 3 else 4
    requires mark == if length == 1 then 0 else if length == 2 then 0xC0 else if length == 3 then 0xE0 else 0xF0
    ensures |Utf8(codepoint)| == length && Utf8(codepoint)[0] == mark + Shifted(codepoint, length - 1)
    ensures Shifted(codepoint, 0) == codepoint
  {
  }

  lemma Utf8Next(codepoint: nat, position: nat)
    requires codepoint <= 0x10FFFF && 0 < position < |Utf8(codepoint)|
    ensures var k := |Utf8(codepoint)| - 1 - position;
            && Utf8(codepoint)[position] == 0x80 + Shifted(codepoint, k) % 64
            && Shifted(codepoint, k + 1) == Shifted(codepoint, k) / 64
  {
  }

  function Shifted(x: nat, k: nat): nat {
    if k == 0 then x else if k == 1 then x / 64 else if k == 2 then x / 4096 else x / 262144
  }
}
