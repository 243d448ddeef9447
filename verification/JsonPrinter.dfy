/**
  The printer of source/external/cJSON.c as it runs: a growing buffer, an
  offset that is caught up by measuring the string just printed, and a depth.
 */
module JsonPrinters {
  import opened Options
  import opened Sequences
  import opened Octets
  import opened JsonStrings
  import opened JsonTrees
  import opened JsonGrammar

  const INT_MAX: nat := 0x7FFF_FFFF

  // ---------- no zero byte inside the text ----------

  lemma {:induction false} EscapedNulFree(s: Bytes)
    requires NulFree(s)
    ensures NulFree(Escaped(s))
  {
    if s != [] {
      EscapedNulFree(s[1..]);
    }
  }

  lemma JoinNulFree(a: Bytes, b: Bytes)
    requires NulFree(a) && NulFree(b)
    ensures NulFree(a + b)
  {
  }

  lemma BlankNulFree(fmt: bool, d: nat)
    ensures NulFree(Blank(fmt, Tabs(d))) && NulFree(Blank(fmt, [TAB])) && NulFree(Blank(fmt, [SPACE])) && NulFree(Blank(fmt, [NEWLINE]))
    ensures NulFree([COMMA]) && NulFree([COLON]) && NulFree([QUOTE]) && NulFree([])
    ensures NulFree([OPEN_ARRAY]) && NulFree([CLOSE_ARRAY]) && NulFree([OPEN_OBJECT]) && NulFree([CLOSE_OBJECT])
  {
  }

  lemma StringNulFree(s: Bytes)
    requires NulFree(s)
    ensures NulFree(StringText(s))
  {
    EscapedNulFree(s);
    hide Escaped;
  }

  lemma {:induction false} TextNulFree(v: Json, d: nat, fmt: bool)
    requires Clean(v)
    ensures NulFree(Text(v, d, fmt))
    decreases v
  {
    BlankNulFree(fmt, d);
    match v
    case Null => assert NulFree(NULL_TEXT);
    case False => assert NulFree(FALSE_TEXT);
    case True => assert NulFree(TRUE_TEXT);
    case Str(s) => StringNulFree(s);
    case Arr(items) =>
      ItemsNulFree(items, d + 1, fmt);
      var inside := ItemsText(items, d + 1, fmt);
      hide ItemsText, NulFree;
      JoinNulFree([OPEN_ARRAY], inside);
      JoinNulFree([OPEN_ARRAY] + inside, [CLOSE_ARRAY]);
    case Obj(members) =>
      MembersNulFree(members, d + 1, fmt);
      ObjectParts(members, d, fmt);
      var inside := MembersText(members, d + 1, fmt);
      hide Text, MembersText, NulFree, Blank, Tabs;
      JoinNulFree([OPEN_OBJECT], Blank(fmt, [NEWLINE]));
      JoinNulFree([OPEN_OBJECT] + Blank(fmt, [NEWLINE]), inside);
      JoinNulFree(Blank(fmt, Tabs(d)), [CLOSE_OBJECT]);
      JoinNulFree([OPEN_OBJECT] + Blank(fmt, [NEWLINE]) + inside, Blank(fmt, Tabs(d)) + [CLOSE_OBJECT]);
  }

  lemma {:induction false} ItemsNulFree(items: Items, d: nat, fmt: bool)
    requires CleanItems(items)
    ensures NulFree(ItemsText(items, d, fmt))
    decreases items
  {
    if items.Item? {
      BlankNulFree(fmt, d);
      TextNulFree(items.head, d, fmt);
      ItemsNulFree(items.next, d, fmt);
      ItemsSplit(items, d, fmt);
      hide Text, Blank, NulFree, ItemsText;
      JoinNulFree([COMMA], Blank(fmt, [SPACE]));
      JoinNulFree(Text(items.head, d, fmt), if items.next.Item? then [COMMA] + Blank(fmt, [SPACE]) else []);
      JoinNulFree(ItemText(items, d, fmt), ItemsText(items.next, d, fmt));
    }
  }

  lemma {:induction false} MembersNulFree(members: Members, d: nat, fmt: bool)
    requires CleanMembers(members)
    ensures NulFree(MembersText(members, d, fmt))
    decreases members
  {
    if members.Member? {
      BlankNulFree(fmt, d);
      StringNulFree(members.name);
      TextNulFree(members.value, d, fmt);
      MembersNulFree(members.next, d, fmt);
      MembersSplit(members, d, fmt);
      hide Text, Blank, NulFree, MembersText, StringText, Tabs;
      var comma: Bytes := if members.next.Member? then [COMMA] else [];
      JoinNulFree(Blank(fmt, Tabs(d)), StringText(members.name));
      JoinNulFree([COLON], Blank(fmt, [TAB]));
      JoinNulFree(Blank(fmt, Tabs(d)) + StringText(members.name), [COLON] + Blank(fmt, [TAB]));
      JoinNulFree(NameText(members.name, d, fmt), Text(members.value, d, fmt));
      JoinNulFree(comma, Blank(fmt, [NEWLINE]));
      JoinNulFree(NameText(members.name, d, fmt) + Text(members.value, d, fmt), comma + Blank(fmt, [NEWLINE]));
      JoinNulFree(MemberText(members, d, fmt), MembersText(members.next, d, fmt));
    }
  }

  lemma {:induction false} EscapedAppend(s: Bytes, b: Byte)
    ensures Escaped(s + [b]) == Escaped(s) + EscapedByte(b)
  {
    if s == [] {
      assert [b][1..] == [];
      assert Escaped([b]) == EscapedByte(b) + Escaped([]);
    } else {
      assert (s + [b])[1..] == s[1..] + [b];
      EscapedAppend(s[1..], b);
      assert Escaped(s) + EscapedByte(b) == EscapedByte(s[0]) + (Escaped(s[1..]) + EscapedByte(b));
    }
  }

  lemma {:induction false} ExtraAppend(s: Bytes, b: Byte)
    ensures Extra(s + [b]) == Extra(s) + ExtraFor(b)
  {
    if s == [] {
      assert [b][1..] == [];
    } else {
      assert (s + [b])[1..] == s[1..] + [b];
      ExtraAppend(s[1..], b);
    }
  }

  lemma PrefixLength(s: Bytes, i: nat)
    requires i < |s|
    ensures |Escaped(s[..i])| + |EscapedByte(s[i])| <= |Escaped(s)|
    ensures s[..i + 1] == s[..i] + [s[i]]
    decreases |s| - i
  {
    assert s[..i + 1] == s[..i] + [s[i]];
    EscapedAppend(s[..i], s[i]);
    if i + 1 < |s| {
      PrefixLength(s, i + 1);
    } else {
      assert s[..i + 1] == s;
    }
  }

  // ---------- tree sizes, for termination ----------

  function Size(v: Json): nat {
    match v
    case Arr(items) => 1 + ItemsSize(items)
    case Obj(members) => 1 + MembersSize(members)
    case _ => 0
  }

  function ItemsSize(items: Items): nat {
    match items
    case NoItems => 0
    case Item(head, next) => 1 + Size(head) + ItemsSize(next)
  }

  function MembersSize(members: Members): nat {
    match members
    case NoMembers => 0
    case Member(_, value, next) => 1 + Size(value) + MembersSize(next)
  }

  // ---------- writing into an array ----------

  /** Bytes stored one after another from position n. */
  method Store(t: Bytes, output: array<Byte>, n: nat)
    requires n + |t| <= output.Length
    modifies output
    ensures output[..n + |t|] == old(output[..n]) + t
    ensures forall i :: n + |t| <= i < output.Length ==> output[i] == old(output[i])
  {
    for i := 0 to |t|
      invariant output[..n + i] == old(output[..n]) + t[..i]
      invariant forall k :: n + i <= k < output.Length ==> output[k] == old(output[k])
    {
      output[n + i] := t[i];
      assert output[..n + i + 1] == output[..n + i] + [t[i]];
    }
    assert t[..|t|] == t;
  }

  /** One round of print_string_ptr's copying loop; the five-letter escape leaves a zero behind it. */
  method StoreEscaped(b: Byte, output: array<Byte>, n: nat) returns (m: nat)
    requires n + |EscapedByte(b)| < output.Length
    modifies output
    ensures m == n + |EscapedByte(b)| && output[..m] == old(output[..n]) + EscapedByte(b)
  {
    hide Hex4;
    if b > 31 && b != QUOTE && b != BACKSLASH {
      output[n] := b;
      assert output[..n + 1] == old(output[..n]) + [b];
      return n + 1;
    }
    output[n] := BACKSLASH;
    var letter: Byte := if b == BACKSLASH || b == QUOTE then b else if b == 8 then 98 else if b == 12 then 102
                        else if b == 10 then 110 else if b == 13 then 114 else if b == 9 then 116 else 117;
    if letter != 117 {
      output[n + 1] := letter;
      assert output[..n + 2] == old(output[..n]) + [BACKSLASH, letter];
      return n + 2;
    }
    assert output[..n + 1] == old(output[..n]) + [BACKSLASH];
    Store([117] + Hex4(b) + [0], output, n + 1);
    m := n + 6;
    assert output[..m] == output[..n + 1 + 6][..m];
    assert output[..m] == old(output[..n]) + [BACKSLASH] + ([117] + Hex4(b));
  }

  // ---------- the print buffer ----------

  class PrintBuffer {
    var buffer: array<Byte>
    var offset: nat
    var depth: nat
    const noalloc: bool
    const format: bool

    ghost predicate Valid()
      reads this
    {
      offset < buffer.Length
    }

    /** The buffer holds the text, a zero behind it, and the offset has not passed it. */
    ghost predicate Shows(t: Bytes)
      reads this`buffer, this`offset, buffer
    {
      |t| < buffer.Length && buffer[..|t|] == t && buffer[|t|] == 0 && offset <= |t|
    }

    constructor (format: bool)
      ensures Valid() && fresh(buffer) && offset == 0 && depth == 0 && !noalloc && this.format == format
    {
      buffer := new Byte[256];
      offset, depth, noalloc, this.format := 0, 0, false, format;
    }

    /** ensure: room for needed more bytes and one beyond, everything before the offset kept. */
    method Ensure(needed: nat) returns (ok: bool)
      requires Valid()
      modifies this`buffer
      ensures Valid() && (buffer == old(buffer) || fresh(buffer))
      ensures ok == (needed <= INT_MAX && (offset + needed + 1 <= old(buffer.Length) || (!noalloc && offset + needed + 1 <= INT_MAX)))
      ensures ok ==> offset + needed + 1 <= buffer.Length
      ensures buffer[..offset + 1] == old(buffer[..offset + 1])
    {
      if needed > INT_MAX {
        return false;
      }
      var total := needed + offset + 1;
      if total <= buffer.Length {
        return true;
      }
      if noalloc {
        return false;
      }
      var size := total * 2;
      if total > INT_MAX / 2 {
        if total > INT_MAX {
          return false;
        }
        size := INT_MAX;
      }
      var larger, smaller := new Byte[size], buffer;
      for i := 0 to offset + 1
        invariant buffer == smaller && larger[..i] == smaller[..i]
      {
        larger[i] := smaller[i];
        assert larger[..i + 1] == larger[..i] + [larger[i]];
        assert smaller[..i + 1] == smaller[..i] + [smaller[i]];
      }
      buffer := larger;
      ok := true;
    }

    /** Room for needed bytes, then the bytes, and a zero behind them where the source writes one. */
    method Write(t: Bytes, needed: nat, zero: bool) returns (ok: bool)
      requires Valid() && |t| + (if zero then 1 else 0) <= needed + 1
      modifies this`buffer, buffer
      ensures Valid() && (buffer == old(buffer) || fresh(buffer))
      ensures needed <= |t| + 1 && offset + |t| + 2 <= INT_MAX && !noalloc ==> ok
      ensures ok ==> offset + needed + 1 <= buffer.Length && buffer[..offset + |t|] == old(buffer[..offset]) + t
      ensures ok && zero ==> Shows(old(buffer[..offset]) + t)
    {
      ghost var pre := buffer[..offset];
      ok := Ensure(needed);
      if !ok {
        return;
      }
      assert buffer[..offset] == buffer[..offset + 1][..offset] == pre;
      Store(t, buffer, offset);
      if zero {
        buffer[offset + |t|] := 0;
        assert buffer[..offset + |t|] == pre + t;
      }
    }

    /** update_offset: strlen finds the end of the text just printed. */
    method UpdateOffset(ghost t: Bytes)
      requires Shows(t) && NulFree(t[offset..])
      modifies this`offset
      ensures offset == |t| && Valid() && buffer[..offset] == t
    {
      forall k | offset <= k < |t|
        ensures buffer[k] != 0
      {
        assert t[offset..][k - offset] == t[k] == buffer[..|t|][k];
      }
      var length := 0;
      while buffer[offset + length] != 0
        invariant offset + length <= |t|
        decreases |t| - length
      {
        length := length + 1;
      }
      offset := offset + length;
    }

    /** The counting loop of print_string_ptr. */
    method CountEscapes(s: Bytes) returns (extra: nat)
      ensures extra == Extra(s)
    {
      extra := 0;
      for i := 0 to |s|
        invariant extra == Extra(s[..i])
      {
        assert s[..i + 1] == s[..i] + [s[i]];
        ExtraAppend(s[..i], s[i]);
        extra := extra + ExtraFor(s[i]);
      }
      assert s[..|s|] == s;
    }

    /** The copying loop of print_string_ptr, between the quotes. */
    method CopyEscaped(s: Bytes, output: array<Byte>, n: nat)
      requires n + |Escaped(s)| + 1 < output.Length
      modifies output
      ensures output[..n + |Escaped(s)|] == old(output[..n]) + Escaped(s)
    {
      hide EscapedByte, Escaped;
      var m := n;
      EscapedNone();
      assert s[..0] == [];
      for i := 0 to |s|
        invariant m == n + |Escaped(s[..i])| <= n + |Escaped(s)|
        invariant output[..m] == old(output[..n]) + Escaped(s[..i])
      {
        PrefixLength(s, i);
        EscapedAppend(s[..i], s[i]);
        m := StoreEscaped(s[i], output, m);
      }
      assert s[..|s|] == s;
    }

    /** The quotes, what is between them, and the closing zero. */
    method StoreString(s: Bytes, extra: nat, output: array<Byte>, n: nat)
      requires extra == Extra(s) && n + |s| + extra + 2 < output.Length
      modifies output
      ensures |StringText(s)| == |s| + extra + 2
      ensures output[..n + |StringText(s)|] == old(output[..n]) + StringText(s) && output[n + |StringText(s)|] == 0
    {
      CountIsExact(s);
      hide Escaped, Extra;
      var length := |s| + extra;
      output[n] := QUOTE;
      assert output[..n + 1] == old(output[..n]) + [QUOTE];
      if extra == 0 {
        Store(s, output, n + 1);
      } else {
        CopyEscaped(s, output, n + 1);
      }
      ghost var pre := output[..n + 1 + length];
      assert pre == old(output[..n]) + [QUOTE] + Escaped(s);
      output[n + length + 1] := QUOTE;
      output[n + length + 2] := 0;
      assert output[..n + length + 2] == pre + [QUOTE];
      assert pre + [QUOTE] == old(output[..n]) + StringText(s);
    }

    /** print_string_ptr. */
    method PrintString(s: Bytes) returns (ok: bool)
      requires Valid()
      modifies this`buffer, buffer
      ensures Valid() && (buffer == old(buffer) || fresh(buffer))
      ensures offset + |StringText(s)| + 2 <= INT_MAX && !noalloc ==> ok
      ensures ok ==> Shows(old(buffer[..offset]) + StringText(s))
    {
      CountIsExact(s);
      assert |StringText(s)| == |s| + Extra(s) + 2;
      hide Escaped, Extra, StringText;
      var extra := CountEscapes(s);
      ok := Ensure(|s| + extra + 3);
      if ok {
        assert buffer[..offset] == buffer[..offset + 1][..offset] == old(buffer[..offset + 1])[..offset];
        StoreString(s, extra, buffer, offset);
      }
    }

    /** Bytes written and passed over. */
    method Put(t: Bytes, needed: nat, zero: bool) returns (ok: bool)
      requires Valid() && |t| <= needed && |t| + (if zero then 1 else 0) <= needed + 1
      modifies this`buffer, this`offset, buffer
      ensures Valid() && (buffer == old(buffer) || fresh(buffer))
      ensures needed <= |t| + 1 && old(offset) + |t| + 2 <= INT_MAX && !noalloc ==> ok
      ensures ok ==> offset == old(offset) + |t| && buffer[..offset] == old(buffer[..offset]) + t
    {
      ok := Write(t, needed, zero);
      if ok {
        offset := offset + |t|;
      }
    }

    /** print_value for a tree without numbers. */
    method PrintValue(v: Json) returns (ok: bool)
      requires Valid() && Clean(v)
      modifies this, buffer
      ensures Valid() && (buffer == old(buffer) || fresh(buffer))
      ensures old(offset) + |Text(v, old(depth), format)| + 2 <= INT_MAX && !noalloc ==> ok
      ensures ok ==> depth == old(depth) && old(offset) <= offset && Shows(old(buffer[..offset]) + Text(v, depth, format))
      decreases Size(v), 1
    {
      hide ItemsText, MembersText, StringText;
      match v
      case Null => ok := Write(NULL_TEXT, 5, true);
      case False => ok := Write(FALSE_TEXT, 6, true);
      case True => ok := Write(TRUE_TEXT, 5, true);
      case Str(s) => ok := PrintString(s);
      case Arr(items) => ok := PrintArray(items);
      case Obj(members) => ok := PrintObject(members);
    }

    /** A value, and the offset caught up behind it. */
    method PrintThrough(v: Json) returns (ok: bool)
      requires Valid() && Clean(v)
      modifies this, buffer
      ensures Valid() && (buffer == old(buffer) || fresh(buffer))
      ensures old(offset) + |Text(v, old(depth), format)| + 2 <= INT_MAX && !noalloc ==> ok
      ensures ok ==> depth == old(depth) && buffer[..offset] == old(buffer[..offset]) + Text(v, depth, format)
      decreases Size(v), 2
    {
      hide Text;
      ghost var t := buffer[..offset] + Text(v, depth, format);
      TextNulFree(v, depth, format);
      ok := PrintValue(v);
      if ok {
        assert forall i :: 0 <= i < |t[offset..]| ==> t[offset..][i] == Text(v, depth, format)[offset - old(offset) + i];
        UpdateOffset(t);
      }
    }

    /** print_array. */
    method PrintArray(items: Items) returns (ok: bool)
      requires Valid() && CleanItems(items)
      modifies this, buffer
      ensures Valid() && (buffer == old(buffer) || fresh(buffer))
      ensures old(offset) + |Text(Arr(items), old(depth), format)| + 2 <= INT_MAX && !noalloc ==> ok
      ensures ok ==> depth == old(depth) && old(offset) <= offset && Shows(old(buffer[..offset]) + Text(Arr(items), depth, format))
      decreases 1 + ItemsSize(items), 0
    {
      hide Text, ItemsText;
      ghost var pre := buffer[..offset];
      ghost var inside := ItemsText(items, depth + 1, format);
      ArrayParts(items, depth, format);
      ok := Put([OPEN_ARRAY], 1, false);
      if !ok {
        return;
      }
      depth := depth + 1;
      ok := PrintItems(items);
      if !ok {
        return;
      }
      Assoc(pre, [OPEN_ARRAY], inside);
      Assoc(pre, [OPEN_ARRAY] + inside, [CLOSE_ARRAY]);
      ok := Write([CLOSE_ARRAY], 2, true);
      depth := depth - 1;
    }

    /** One element of print_array's loop and the separator behind it. */
    method PrintItem(current: Items) returns (ok: bool)
      requires Valid() && current.Item? && CleanItems(current)
      modifies this, buffer
      ensures Valid() && (buffer == old(buffer) || fresh(buffer))
      ensures old(offset) + |ItemText(current, old(depth), format)| + 2 <= INT_MAX && !noalloc ==> ok
      ensures ok ==> depth == old(depth) && buffer[..offset] == old(buffer[..offset]) + ItemText(current, depth, format)
      decreases ItemsSize(current), 3
    {
      hide Text, Blank;
      ghost var pre := buffer[..offset];
      ok := PrintThrough(current.head);
      if ok && current.next.Item? {
        var separator := [COMMA] + Blank(format, [SPACE]);
        ghost var head := Text(current.head, depth, format);
        assert pre + head + separator == pre + (head + separator);
        ok := Put(separator, |separator| + 1, true);
      }
    }

    /** The loop of print_array. */
    method PrintItems(items: Items) returns (ok: bool)
      requires Valid() && CleanItems(items)
      modifies this, buffer
      ensures Valid() && (buffer == old(buffer) || fresh(buffer))
      ensures old(offset) + |ItemsText(items, old(depth), format)| + 2 <= INT_MAX && !noalloc ==> ok
      ensures ok ==> depth == old(depth) && buffer[..offset] == old(buffer[..offset]) + ItemsText(items, depth, format)
      decreases ItemsSize(items), 4
    {
      hide ItemText, ItemsText;
      ghost var pre := buffer[..offset];
      ghost var done: Bytes := [];
      ghost var d := depth;
      var current := items;
      ok := true;
      assert pre + done == pre;
      while current.Item?
        invariant ok && Valid() && (buffer == old(buffer) || fresh(buffer)) && depth == d
        invariant CleanItems(current) && ItemsSize(current) <= ItemsSize(items)
        invariant done + ItemsText(current, d, format) == ItemsText(items, d, format)
        invariant buffer[..offset] == pre + done
        decreases ItemsSize(current)
      {
        ItemsSplit(current, d, format);
        ghost var piece := ItemText(current, d, format);
        Assoc(done, piece, ItemsText(current.next, d, format));
        Assoc(pre, done, piece);
        ok := PrintItem(current);
        if !ok {
          return;
        }
        done := done + piece;
        current := current.next;
      }
      ItemsEnd(d, format);
      assert done + [] == done;
    }

    /** print_object. */
    method PrintObject(members: Members) returns (ok: bool)
      requires Valid() && CleanMembers(members)
      modifies this, buffer
      ensures Valid() && (buffer == old(buffer) || fresh(buffer))
      ensures old(offset) + |Text(Obj(members), old(depth), format)| + 2 <= INT_MAX && !noalloc ==> ok
      ensures ok ==> depth == old(depth) && old(offset) <= offset && Shows(old(buffer[..offset]) + Text(Obj(members), depth, format))
      decreases 1 + MembersSize(members), 0
    {
      hide Text, MembersText, Blank, Tabs, Shows;
      ghost var pre := buffer[..offset];
      ghost var inside := MembersText(members, depth + 1, format);
      var open := [OPEN_OBJECT] + Blank(format, [NEWLINE]);
      ghost var close := Blank(format, Tabs(depth)) + [CLOSE_OBJECT];
      ObjectParts(members, depth, format);
      ok := Put(open, |open| + 1, false);
      if !ok {
        return;
      }
      depth := depth + 1;
      ok := PrintMembers(members);
      if !ok {
        return;
      }
      Assoc(pre, open, inside);
      Assoc(pre, open + inside, close);
      ok := WriteClose();
      depth := depth - 1;
    }

    /** The tabs and the brace that end an object. */
    method WriteClose() returns (ok: bool)
      requires Valid() && depth > 0
      modifies this`buffer, buffer
      ensures Valid() && (buffer == old(buffer) || fresh(buffer))
      ensures var t := Blank(format, Tabs(depth - 1)) + [CLOSE_OBJECT];
              && (offset + |t| + 2 <= INT_MAX && !noalloc ==> ok) && (ok ==> Shows(old(buffer[..offset]) + t))
    {
      var needed := if format then depth + 1 else 2;
      ok := Write(Blank(format, Tabs(depth - 1)) + [CLOSE_OBJECT], needed, true);
    }

    /** The tabs, the name and the colon of a member. */
    method PrintName(name: Bytes) returns (ok: bool)
      requires Valid() && NulFree(name)
      modifies this, buffer
      ensures Valid() && (buffer == old(buffer) || fresh(buffer)) && depth == old(depth)
      ensures old(offset) + |NameText(name, depth, format)| + 2 <= INT_MAX && !noalloc ==> ok
      ensures ok ==> buffer[..offset] == old(buffer[..offset]) + NameText(name, depth, format)
    {
      EscapedNulFree(name);
      assert NulFree(StringText(name));
      ghost var pre := buffer[..offset];
      var tabs, colon := Blank(format, Tabs(depth)), [COLON] + Blank(format, [TAB]);
      assert |tabs| == (if format then depth else 0);
      assert NameText(name, depth, format) == tabs + StringText(name) + colon;
      hide Blank, Tabs, StringText, Escaped, NameText;
      if format {
        ok := Put(tabs, depth, false);
        if !ok {
          return;
        }
      } else {
        assert pre + tabs == pre;
      }
      ghost var t := pre + tabs + StringText(name);
      ok := PrintString(name);
      if !ok {
        return;
      }
      assert t[offset..] == StringText(name);
      UpdateOffset(t);
      Assoc(pre, tabs, StringText(name));
      Assoc(pre, tabs + StringText(name), colon);
      ok := Put(colon, |colon|, false);
    }

    /** One member of print_object's loop and what follows it. */
    method PrintMember(current: Members) returns (ok: bool)
      requires Valid() && current.Member? && CleanMembers(current)
      modifies this, buffer
      ensures Valid() && (buffer == old(buffer) || fresh(buffer))
      ensures old(offset) + |MemberText(current, old(depth), format)| + 2 <= INT_MAX && !noalloc ==> ok
      ensures ok ==> depth == old(depth) && buffer[..offset] == old(buffer[..offset]) + MemberText(current, depth, format)
      decreases MembersSize(current), 3
    {
      hide Text, Blank, NameText;
      ghost var pre := buffer[..offset];
      ok := PrintName(current.name);
      if !ok {
        return;
      }
      ok := PrintThrough(current.value);
      if !ok {
        return;
      }
      var separator := (if current.next.Member? then [COMMA] else []) + Blank(format, [NEWLINE]);
      ghost var name, value := NameText(current.name, depth, format), Text(current.value, depth, format);
      Assoc(pre, name, value);
      Assoc(pre, name + value, separator);
      ok := Put(separator, |separator| + 1, true);
    }

    /** The loop of print_object. */
    method PrintMembers(members: Members) returns (ok: bool)
      requires Valid() && CleanMembers(members)
      modifies this, buffer
      ensures Valid() && (buffer == old(buffer) || fresh(buffer))
      ensures old(offset) + |MembersText(members, old(depth), format)| + 2 <= INT_MAX && !noalloc ==> ok
      ensures ok ==> depth == old(depth) && buffer[..offset] == old(buffer[..offset]) + MembersText(members, depth, format)
      decreases MembersSize(members), 4
    {
      hide MemberText, MembersText;
      ghost var pre := buffer[..offset];
      ghost var done: Bytes := [];
      ghost var d := depth;
      var current := members;
      ok := true;
      assert pre + done == pre;
      while current.Member?
        invariant ok && Valid() && (buffer == old(buffer) || fresh(buffer)) && depth == d
        invariant CleanMembers(current) && MembersSize(current) <= MembersSize(members)
        invariant done + MembersText(current, d, format) == MembersText(members, d, format)
        invariant buffer[..offset] == pre + done
        decreases MembersSize(current)
      {
        MembersSplit(current, d, format);
        ghost var piece := MemberText(current, d, format);
        Assoc(done, piece, MembersText(current.next, d, format));
        Assoc(pre, done, piece);
        ok := PrintMember(current);
        if !ok {
          return;
        }
        done := done + piece;
        current := current.next;
      }
      MembersEnd(d, format);
      assert done + [] == done;
    }
  }

  /** One element and its separator. */
  function ItemText(items: Items, d: nat, fmt: bool): Bytes
    requires items.Item?
  {
    Text(items.head, d, fmt) + (if items.next.Item? then [COMMA] + Blank(fmt, [SPACE]) else [])
  }

  lemma ItemsSplit(items: Items, d: nat, fmt: bool)
    requires items.Item?
    ensures ItemsText(items, d, fmt) == ItemText(items, d, fmt) + ItemsText(items.next, d, fmt)
  {
    hide Text, Blank;
  }

  lemma ItemsEnd(d: nat, fmt: bool)
    ensures ItemsText(NoItems, d, fmt) == []
  {
  }

  function NameText(name: Bytes, d: nat, fmt: bool): Bytes {
    Blank(fmt, Tabs(d)) + StringText(name) + ([COLON] + Blank(fmt, [TAB]))
  }

  /** One member and what follows it before the next. */
  function MemberText(members: Members, d: nat, fmt: bool): Bytes
    requires members.Member?
  {
    NameText(members.name, d, fmt) + Text(members.value, d, fmt)
    + ((if members.next.Member? then [COMMA] else []) + Blank(fmt, [NEWLINE]))
  }

  lemma MembersSplit(members: Members, d: nat, fmt: bool)
    requires members.Member?
    ensures MembersText(members, d, fmt) == MemberText(members, d, fmt) + MembersText(members.next, d, fmt)
  {
    var tabs, name, tab, value := Blank(fmt, Tabs(d)), StringText(members.name), Blank(fmt, [TAB]), Text(members.value, d, fmt);
    var comma: Bytes := if members.next.NoMembers? then [] else [COMMA];
    var nl, next := Blank(fmt, [NEWLINE]), MembersText(members.next, d, fmt);
    assert MembersText(members, d, fmt) == tabs + name + [COLON] + tab + value + comma + nl + next;
    assert MemberText(members, d, fmt) == tabs + name + ([COLON] + tab) + value + (comma + nl);
    hide Text, Blank, StringText, Tabs, MembersText, MemberText;
    Assoc(tabs + name, [COLON], tab);
    Assoc(tabs + name + [COLON] + tab + value, comma, nl);
  }

  lemma MembersEnd(d: nat, fmt: bool)
    ensures MembersText(NoMembers, d, fmt) == []
  {
  }

  lemma ArrayParts(items: Items, d: nat, fmt: bool)
    ensures Text(Arr(items), d, fmt) == [OPEN_ARRAY] + ItemsText(items, d + 1, fmt) + [CLOSE_ARRAY]
  {
  }

  lemma ObjectParts(members: Members, d: nat, fmt: bool)
    ensures Text(Obj(members), d, fmt) ==
            [OPEN_OBJECT] + Blank(fmt, [NEWLINE]) + MembersText(members, d + 1, fmt) + (Blank(fmt, Tabs(d)) + [CLOSE_OBJECT])
  {
    hide Blank, Tabs, MembersText;
    Assoc([OPEN_OBJECT] + Blank(fmt, [NEWLINE]) + MembersText(members, d + 1, fmt), Blank(fmt, Tabs(d)), [CLOSE_OBJECT]);
  }

  /**
    cJSON_Print and cJSON_PrintUnformatted: the text of the tree, which parses
    back to the tree when the nesting permits; no text only beyond the size limit.
   */
  method Print(v: Json, fmt: bool) returns (r: Option<Bytes>)
    requires Clean(v)
    ensures r.Some? ==> r.value == Text(v, 0, fmt)
    ensures r.Some? ==> Parse(r.value) == if Nesting(v) <= NESTING_LIMIT then Some(v) else None
    ensures |Text(v, 0, fmt)| + 2 <= INT_MAX ==> r.Some?
  {
    hide Text, Parse, Nesting;
    PrintParse(v, fmt);
    var p := new PrintBuffer(fmt);
    ghost var none := p.buffer[..0];
    var ok := p.PrintThrough(v);
    if !ok {
      return None;
    }
    assert none + Text(v, 0, fmt) == Text(v, 0, fmt);
    r := Some(p.buffer[..p.offset]);
  }

  lemma EscapedNone()
    ensures Escaped([]) == []
  {
  }
}
