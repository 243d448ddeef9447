/**
  JSON texts by the grammar of sections 2 to 7 of RFC 8259, without numbers, as
  derivations that say where blanks stand and how strings are written, apart
  from how source/external/cJSON.c prints and parses. The parser accepts exactly
  the texts derived, with any byte up to 32 as a blank and with some strings the
  standard does not have, and the printer's texts are derived by the standard.
 */
module JsonGrammar {
  import opened Options
  import opened Sequences
  import opened Octets
  import opened JsonStrings
  import opened JsonTrees
  import opened JsonCharacters

  /** A string by the grammar, or any text the parser reads as a string. */
  datatype Name = Chars(cs: seq<Char>) | Raw(text: Bytes)

  /** The gaps are where blanks may stand: before and after each of the six structural characters. */
  datatype Doc =
    | DNull
    | DFalse
    | DTrue
    | DString(name: Name)
    | DNoItems(gap: Bytes)
    | DArray(items: DocItems)
    | DNoMembers(gap: Bytes)
    | DObject(members: DocMembers)

  datatype DocItems =
    | LastItem(before: Bytes, head: Doc, after: Bytes)
    | MoreItems(before: Bytes, head: Doc, after: Bytes, next: DocItems)

  datatype DocMembers =
    | LastMember(before: Bytes, name: Name, colon: Bytes, lead: Bytes, value: Doc, after: Bytes)
    | MoreMembers(before: Bytes, name: Name, colon: Bytes, lead: Bytes, value: Doc, after: Bytes, next: DocMembers)

  // ---------- texts ----------

  function NameOn(name: Name, rest: Bytes): Bytes {
    match name
    case Chars(cs) => StringOn(cs, rest)
    case Raw(text) => text + rest
  }

  /** The text derived, followed by the rest. */
  function On(d: Doc, rest: Bytes): Bytes
    decreases d
  {
    match d
    case DNull => [0x6E, 0x75, 0x6C, 0x6C] + rest
    case DFalse => [0x66, 0x61, 0x6C, 0x73, 0x65] + rest
    case DTrue => [0x74, 0x72, 0x75, 0x65] + rest
    case DString(name) => NameOn(name, rest)
    case DNoItems(gap) => [0x5B] + (gap + ([0x5D] + rest))
    case DArray(items) => [0x5B] + ItemsOn(items, rest)
    case DNoMembers(gap) => [0x7B] + (gap + ([0x7D] + rest))
    case DObject(members) => [0x7B] + MembersOn(members, rest)
  }

  function ItemsOn(items: DocItems, rest: Bytes): Bytes
    decreases items
  {
    items.before + On(items.head, items.after + ItemsAfter(items, rest))
  }

  function ItemsAfter(items: DocItems, rest: Bytes): Bytes
    decreases items, 0
  {
    match items
    case LastItem(_, _, _) => [0x5D] + rest
    case MoreItems(_, _, _, next) => [0x2C] + ItemsOn(next, rest)
  }

  function MembersOn(members: DocMembers, rest: Bytes): Bytes
    decreases members
  {
    members.before + NameOn(members.name, members.colon + ([0x3A] +
      (members.lead + On(members.value, members.after + MembersAfter(members, rest)))))
  }

  function MembersAfter(members: DocMembers, rest: Bytes): Bytes
    decreases members, 0
  {
    match members
    case LastMember(_, _, _, _, _, _) => [0x7D] + rest
    case MoreMembers(_, _, _, _, _, _, next) => [0x2C] + MembersOn(next, rest)
  }

  // ---------- which derivations are allowed ----------

  /** Blanks of the standard, or of the parser. */
  predicate Gap(b: Bytes, strict: bool) {
    forall i :: 0 <= i < |b| ==> b[i] <= 0x20 && (strict ==> b[i] in [0x20, 0x09, 0x0A, 0x0D])
  }

  /** A text in quotation marks that the parser reads whole. */
  predicate RawOk(text: Bytes) {
    text != [] && text[0] == 0x22 && ParseString(text + [0]).Ok? && ParseString(text + [0]).rest == [0]
  }

  predicate NameOk(name: Name, strict: bool) {
    match name
    case Chars(cs) => CharsOk(cs, strict)
    case Raw(text) => !strict && RawOk(text)
  }

  predicate DocOk(d: Doc, strict: bool)
    decreases d
  {
    match d
    case DString(name) => NameOk(name, strict)
    case DNoItems(gap) => Gap(gap, strict)
    case DArray(items) => ItemsOk(items, strict)
    case DNoMembers(gap) => Gap(gap, strict)
    case DObject(members) => MembersOk(members, strict)
    case _ => true
  }

  predicate ItemsOk(items: DocItems, strict: bool)
    decreases items
  {
    && Gap(items.before, strict) && DocOk(items.head, strict) && Gap(items.after, strict)
    && (items.MoreItems? ==> ItemsOk(items.next, strict))
  }

  predicate MembersOk(members: DocMembers, strict: bool)
    decreases members
  {
    && Gap(members.before, strict) && NameOk(members.name, strict) && Gap(members.colon, strict) && Gap(members.lead, strict)
    && DocOk(members.value, strict) && Gap(members.after, strict)
    && (members.MoreMembers? ==> MembersOk(members.next, strict))
  }

  // ---------- what derivations mean ----------

  function NameMeaning(name: Name): Bytes
    requires NameOk(name, false)
  {
    match name
    case Chars(cs) => CharsMeaning(cs)
    case Raw(text) => ParseString(text + [0]).value
  }

  function Meaning(d: Doc): Json
    requires DocOk(d, false)
    decreases d
  {
    match d
    case DNull => Null
    case DFalse => False
    case DTrue => True
    case DString(name) => Str(NameMeaning(name))
    case DNoItems(_) => Arr(NoItems)
    case DArray(items) => Arr(ItemsMeaning(items))
    case DNoMembers(_) => Obj(NoMembers)
    case DObject(members) => Obj(MembersMeaning(members))
  }

  function ItemsMeaning(items: DocItems): (r: Items)
    requires ItemsOk(items, false)
    ensures r.Item?
    decreases items
  {
    Item(Meaning(items.head), if items.LastItem? then NoItems else ItemsMeaning(items.next))
  }

  function MembersMeaning(members: DocMembers): (r: Members)
    requires MembersOk(members, false)
    ensures r.Member?
    decreases members
  {
    Member(NameMeaning(members.name), Meaning(members.value),
           if members.LastMember? then NoMembers else MembersMeaning(members.next))
  }

  lemma {:induction false} StrictIsOk(d: Doc)
    requires DocOk(d, true)
    ensures DocOk(d, false)
    decreases d
  {
    match d
    case DArray(items) => StrictItems(items);
    case DObject(members) => StrictMembers(members);
    case _ =>
  }

  lemma {:induction false} StrictItems(items: DocItems)
    requires ItemsOk(items, true)
    ensures ItemsOk(items, false)
    decreases items
  {
    StrictIsOk(items.head);
    if items.MoreItems? {
      StrictItems(items.next);
    }
  }

  lemma {:induction false} StrictMembers(members: DocMembers)
    requires MembersOk(members, true)
    ensures MembersOk(members, false)
    decreases members
  {
    StrictIsOk(members.value);
    if members.MoreMembers? {
      StrictMembers(members.next);
    }
  }

  // ---------- every derived text is parsed to what it means ----------

  /** The value, or a failure beyond the nesting limit. */
  function Outcome<T>(fits: bool, v: T, rest: Bytes): Parsed<T> {
    if fits then Ok(v, rest) else Fail
  }

  lemma {:induction false} SkipGap(b: Bytes, s: Bytes)
    requires Gap(b, false) && Terminated(s) && s[0] > 32
    ensures Terminated(b + s) && SkipWhitespace(b + s) == s
  {
    if b == [] {
      assert b + s == s;
    } else {
      assert (b + s)[1..] == b[1..] + s;
      SkipGap(b[1..], s);
    }
  }

  lemma {:induction false} SkipTwice(s: Bytes)
    requires Terminated(s)
    ensures SkipWhitespace(SkipWhitespace(s)) == SkipWhitespace(s)
  {
    if s[0] <= 32 && |s| > 1 {
      SkipTwice(s[1..]);
    }
  }

  /** A token in front changes neither the terminating zero nor, without blanks, the skipping. */
  lemma Token(b: Byte, rest: Bytes)
    requires Terminated(rest) && b > 32
    ensures var s := [b] + rest; Terminated(s) && s[0] == b && s[1..] == rest && SkipWhitespace(s) == s
  {
  }

  lemma TerminatedNonempty(s: Bytes)
    ensures Terminated(s) ==> s != []
  {
  }

  /** A derived text starts with one of six bytes. */
  lemma Starts(d: Doc, rest: Bytes)
    requires DocOk(d, false)
    ensures var s := On(d, rest); s != [] && s[0] in [0x6E, 0x66, 0x74, 0x22, 0x5B, 0x7B]
  {
    hide StringOn, ParseString;
  }

  lemma WordParses(d: Doc, rest: Bytes, depth: nat)
    requires (d.DNull? || d.DFalse? || d.DTrue?) && Terminated(rest)
    ensures Terminated(On(d, rest)) && ParseValue(On(d, rest), depth) == Ok(Meaning(d), rest)
  {
    hide ParseArray, ParseObject, ParseString;
    var s := On(d, rest);
    assert |s| >= 5 ==> s[..5][0] == s[0];
    assert |s| >= 4 ==> s[..4][0] == s[0];
    if d.DFalse? {
      assert s[..5] == FALSE_TEXT && s[5..] == rest;
    } else {
      assert s[..4] == (if d.DNull? then NULL_TEXT else TRUE_TEXT) && s[4..] == rest;
    }
  }

  /** The first byte decides among strings, arrays and objects. */
  lemma ValueBranch(s: Bytes, depth: nat)
    requires Terminated(s)
    ensures s[0] == QUOTE ==> ParseValue(s, depth) == (match ParseString(s) case Fail => Fail case Ok(x, rest) => Ok(Str(x), rest))
    ensures s[0] == OPEN_ARRAY ==> ParseValue(s, depth) == ParseArray(s, depth)
    ensures s[0] == OPEN_OBJECT ==> ParseValue(s, depth) == ParseObject(s, depth)
  {
    hide ParseArray, ParseObject, ParseString;
    assert |s| >= 5 ==> s[..5][0] == s[0];
    assert |s| >= 4 ==> s[..4][0] == s[0];
  }

  lemma NameParses(name: Name, rest: Bytes)
    requires NameOk(name, false) && Terminated(rest)
    ensures var s := NameOn(name, rest); Terminated(s) && s[0] == QUOTE && ParseString(s) == Ok(NameMeaning(name), rest)
  {
    hide ParseString, StringOn, CharsMeaning, CharOk;
    match name
    case Chars(cs) => StringParses(cs, rest);
    case Raw(text) => RawParses(text, rest);
  }

  /** Every text derived, by the standard or more liberally, is parsed to what it means, if the nesting permits. */
  lemma {:induction false} ValueParses(d: Doc, rest: Bytes, depth: nat)
    requires DocOk(d, false) && Terminated(rest) && depth <= NESTING_LIMIT
    ensures Terminated(On(d, rest))
    ensures ParseValue(On(d, rest), depth) == Outcome(depth + Nesting(Meaning(d)) <= NESTING_LIMIT, Meaning(d), rest)
    decreases d, 0
  {
    hide ParseValue, ParseString, ParseArray, ParseObject, ItemsOn, MembersOn, NameOn, Gap;
    match d
    case DString(name) =>
      NameParses(name, rest);
      ValueBranch(On(d, rest), depth);
    case DNoItems(gap) =>
      NoItemsParse(gap, rest, depth);
      ValueBranch(On(d, rest), depth);
    case DArray(items) =>
      ArrayParses(items, rest, depth);
      ValueBranch(On(d, rest), depth);
    case DNoMembers(gap) =>
      NoMembersParse(gap, rest, depth);
      ValueBranch(On(d, rest), depth);
    case DObject(members) =>
      ObjectParses(members, rest, depth);
      ValueBranch(On(d, rest), depth);
    case _ => WordParses(d, rest, depth);
  }

  lemma NoItemsParse(gap: Bytes, rest: Bytes, depth: nat)
    requires Gap(gap, false) && Terminated(rest) && depth <= NESTING_LIMIT
    ensures var s := [0x5B] + (gap + ([0x5D] + rest));
            && Terminated(s) && s[0] == OPEN_ARRAY
            && ParseArray(s, depth) == Outcome(depth + 1 <= NESTING_LIMIT, Arr(NoItems), rest)
  {
    hide SkipWhitespace, Terminated, Gap, ParseItems;
    Token(0x5D, rest);
    SkipGap(gap, [0x5D] + rest);
    Token(0x5B, gap + ([0x5D] + rest));
  }

  lemma NoMembersParse(gap: Bytes, rest: Bytes, depth: nat)
    requires Gap(gap, false) && Terminated(rest) && depth <= NESTING_LIMIT
    ensures var s := [0x7B] + (gap + ([0x7D] + rest));
            && Terminated(s) && s[0] == OPEN_OBJECT
            && ParseObject(s, depth) == Outcome(depth + 1 <= NESTING_LIMIT, Obj(NoMembers), rest)
  {
    hide SkipWhitespace, Terminated, Gap, ParseMembers;
    Token(0x7D, rest);
    SkipGap(gap, [0x7D] + rest);
    Token(0x7B, gap + ([0x7D] + rest));
  }

  lemma {:induction false} ArrayParses(items: DocItems, rest: Bytes, depth: nat)
    requires ItemsOk(items, false) && Terminated(rest) && depth <= NESTING_LIMIT
    ensures var s, v := [0x5B] + ItemsOn(items, rest), Arr(ItemsMeaning(items));
            && Terminated(s) && s[0] == OPEN_ARRAY
            && ParseArray(s, depth) == Outcome(depth + Nesting(v) <= NESTING_LIMIT, v, rest)
    decreases items, 1
  {
    hide ItemsOn, ItemsMeaning, ParseItems, SkipWhitespace, Terminated;
    var t := ItemsOn(items, rest);
    ItemsParse(items, rest, if depth < NESTING_LIMIT then depth + 1 else depth);
    Token(0x5B, t);
    SkippedItems(t, depth + 1);
  }

  /** The list may be entered before or after its leading blanks. */
  lemma SkippedItems(t: Bytes, depth: nat)
    requires Terminated(t)
    ensures ParseItems(SkipWhitespace(t), depth) == ParseItems(t, depth)
  {
    hide ParseValue, SkipWhitespace;
    SkipTwice(t);
  }

  lemma SkippedMembers(t: Bytes, depth: nat)
    requires Terminated(t)
    ensures ParseMembers(SkipWhitespace(t), depth) == ParseMembers(t, depth)
  {
    hide ParseString, ParseNamed, SkipWhitespace;
    SkipTwice(t);
  }

  lemma {:induction false} ItemsParse(items: DocItems, rest: Bytes, depth: nat)
    requires ItemsOk(items, false) && Terminated(rest) && depth <= NESTING_LIMIT
    ensures var s := ItemsOn(items, rest);
            && Terminated(s) && SkipWhitespace(s) != [] && SkipWhitespace(s)[0] != CLOSE_ARRAY
            && ParseItems(s, depth) == Outcome(depth + ItemsNesting(ItemsMeaning(items)) <= NESTING_LIMIT, ItemsMeaning(items), rest)
    decreases items, 0
  {
    hide On, ItemsAfter, ParseValue, SkipWhitespace, Terminated, Gap;
    var after := ItemsAfter(items, rest);
    ItemsAfterParse(items, rest, depth);
    SkipGap(items.after, after);
    var tail := items.after + after;
    ValueParses(items.head, tail, depth);
    Starts(items.head, tail);
    SkipGap(items.before, On(items.head, tail));
  }

  /** After a value: the rest of the list behind a comma, or the closing bracket. */
  lemma {:induction false} ItemsAfterParse(items: DocItems, rest: Bytes, depth: nat)
    requires ItemsOk(items, false) && Terminated(rest) && depth <= NESTING_LIMIT
    ensures var t := ItemsAfter(items, rest);
            && Terminated(t) && t != [] && t[0] > 32
            && if items.LastItem? then t[0] == CLOSE_ARRAY && t[1..] == rest
               else && t[0] == COMMA && Terminated(t[1..])
                    && ParseItems(t[1..], depth) ==
                       Outcome(depth + ItemsNesting(ItemsMeaning(items.next)) <= NESTING_LIMIT, ItemsMeaning(items.next), rest)
    decreases items, -1
  {
    hide ItemsOn, ItemsMeaning, ParseItems, SkipWhitespace, Terminated, Gap, DocOk;
    match items
    case LastItem(_, _, _) => Token(0x5D, rest);
    case MoreItems(_, _, _, next) =>
      ItemsParse(next, rest, depth);
      Token(0x2C, ItemsOn(next, rest));
  }

  lemma {:induction false} ObjectParses(members: DocMembers, rest: Bytes, depth: nat)
    requires MembersOk(members, false) && Terminated(rest) && depth <= NESTING_LIMIT
    ensures var s, v := [0x7B] + MembersOn(members, rest), Obj(MembersMeaning(members));
            && Terminated(s) && s[0] == OPEN_OBJECT
            && ParseObject(s, depth) == Outcome(depth + Nesting(v) <= NESTING_LIMIT, v, rest)
    decreases members, 1
  {
    hide MembersOn, MembersMeaning, ParseMembers, SkipWhitespace, Terminated;
    var t := MembersOn(members, rest);
    MembersParse(members, rest, if depth < NESTING_LIMIT then depth + 1 else depth);
    Token(0x7B, t);
    SkippedMembers(t, depth + 1);
  }

  /** Blanks, colon, blanks and value of one member. */
  lemma {:induction false} NamedParses(colon: Bytes, lead: Bytes, d: Doc, after: Bytes, depth: nat)
    requires Gap(colon, false) && Gap(lead, false) && DocOk(d, false) && Terminated(after) && depth <= NESTING_LIMIT
    ensures var s := colon + ([0x3A] + (lead + On(d, after)));
            Terminated(s) && ParseNamed(s, depth) == Outcome(depth + Nesting(Meaning(d)) <= NESTING_LIMIT, Meaning(d), after)
    decreases d, 1
  {
    hide On, Meaning, ParseValue, SkipWhitespace, Terminated, Gap, DocOk;
    ValueParses(d, after, depth);
    Starts(d, after);
    SkipGap(lead, On(d, after));
    Token(0x3A, lead + On(d, after));
    SkipGap(colon, [0x3A] + (lead + On(d, after)));
  }

  lemma {:induction false} MembersParse(members: DocMembers, rest: Bytes, depth: nat)
    requires MembersOk(members, false) && Terminated(rest) && depth <= NESTING_LIMIT
    ensures var s := MembersOn(members, rest);
            && Terminated(s) && SkipWhitespace(s) != [] && SkipWhitespace(s)[0] != CLOSE_OBJECT
            && ParseMembers(s, depth) == Outcome(depth + MembersNesting(MembersMeaning(members)) <= NESTING_LIMIT, MembersMeaning(members), rest)
    decreases members, 0
  {
    hide On, NameOn, MembersAfter, ParseString, ParseNamed, SkipWhitespace, Terminated, Gap, NameOk, DocOk;
    var after := MembersAfter(members, rest);
    MembersAfterParse(members, rest, depth);
    SkipGap(members.after, after);
    var tail := members.after + after;
    var named := members.colon + ([0x3A] + (members.lead + On(members.value, tail)));
    NamedParses(members.colon, members.lead, members.value, tail, depth);
    NameParses(members.name, named);
    TerminatedNonempty(NameOn(members.name, named));
    SkipGap(members.before, NameOn(members.name, named));
  }

  lemma {:induction false} MembersAfterParse(members: DocMembers, rest: Bytes, depth: nat)
    requires MembersOk(members, false) && Terminated(rest) && depth <= NESTING_LIMIT
    ensures var t := MembersAfter(members, rest);
            && Terminated(t) && t != [] && t[0] > 32
            && if members.LastMember? then t[0] == CLOSE_OBJECT && t[1..] == rest
               else && t[0] == COMMA && Terminated(t[1..])
                    && ParseMembers(t[1..], depth) ==
                       Outcome(depth + MembersNesting(MembersMeaning(members.next)) <= NESTING_LIMIT, MembersMeaning(members.next), rest)
    decreases members, -1
  {
    hide MembersOn, MembersMeaning, ParseMembers, SkipWhitespace, Terminated, Gap, DocOk, NameOk;
    match members
    case LastMember(_, _, _, _, _, _) => Token(0x7D, rest);
    case MoreMembers(_, _, _, _, _, _, next) =>
      MembersParse(next, rest, depth);
      Token(0x2C, MembersOn(next, rest));
  }

  // ---------- a string's reading does not depend on what follows it ----------

  lemma {:induction false} ScanLocal(a: Bytes, x: Bytes, y: Bytes, p: nat)
    requires p <= |a| && ScanEnd(a + x, p).End? && ScanEnd(a + x, p).at < |a|
    ensures ScanEnd(a + y, p) == ScanEnd(a + x, p)
    decreases |a| - p
  {
    hide ScanEnd;
    ScanRound(a + x, p);
    ScanRound(a + y, p);
    ScanForward(a + x, p);
    if p < |a| && a[p] != QUOTE {
      if a[p] == BACKSLASH {
        ScanForward(a + x, p + 2);
        ScanLocal(a, x, y, p + 2);
      } else {
        ScanLocal(a, x, y, p + 1);
      }
    }
  }

  lemma StepLocal(a: Bytes, x: Bytes, y: Bytes, n: nat)
    requires 0 < n < |a|
    ensures Step(a + x, n) == Step(a + y, n)
  {
    hide Utf8, ParseHex4;
    HexLocal(a, x, y, n);
  }

  lemma HexLocal(a: Bytes, x: Bytes, y: Bytes, n: nat)
    requires n < |a|
    ensures n >= 6 ==> ParseHex4((a + x)[2..]) == ParseHex4((a + y)[2..])
    ensures n >= 12 ==> ParseHex4((a + x)[8..]) == ParseHex4((a + y)[8..])
  {
  }

  lemma {:induction false} UnescapeLocal(a: Bytes, x: Bytes, y: Bytes, n: nat)
    requires n < |a|
    ensures Unescape(a + x, n) == Unescape(a + y, n)
    decreases n
  {
    hide Step;
    if n > 0 {
      StepLocal(a, x, y, n);
      var r := Step(a + x, n);
      if r.Literal? && r.length < n {
        UnescapeLocal(a[r.length..], x, y, n - r.length);
        assert (a + x)[r.length..] == a[r.length..] + x && (a + y)[r.length..] == a[r.length..] + y;
      }
    }
  }

  lemma StringLocal(text: Bytes, x: Bytes, y: Bytes)
    requires text != [] && Terminated(x) && Terminated(y)
    requires ParseString(text + x).Ok? && ParseString(text + x).rest == x
    ensures ParseString(text + y) == Ok(ParseString(text + x).value, y)
  {
    hide ScanEnd, Unescape;
    var s, t := text + x, text + y;
    var at := ScanEnd(s, 1).at;
    assert |s[at + 1..]| == |x|;
    assert at == |text| - 1;
    ScanLocal(text, x, y, 1);
    assert s[1..] == text[1..] + x && t[1..] == text[1..] + y;
    UnescapeLocal(text[1..], x, y, at - 1);
    assert t[at + 1..] == y;
  }

  lemma RawParses(text: Bytes, rest: Bytes)
    requires RawOk(text) && Terminated(rest)
    ensures Terminated(text + rest) && ParseString(text + rest) == Ok(ParseString(text + [0]).value, rest)
  {
    hide ParseString;
    StringLocal(text, [0], rest);
  }

  // ---------- nothing else is accepted ----------

  /** Where skipping stops at a token, it has passed over blanks. */
  lemma {:induction false} Skipped(s: Bytes) returns (gap: Bytes)
    requires Terminated(s) && SkipWhitespace(s)[0] > 32
    ensures Gap(gap, false) && s == gap + SkipWhitespace(s)
  {
    if s[0] > 32 || |s| == 1 {
      gap := [];
    } else {
      var more := Skipped(s[1..]);
      gap := [s[0]] + more;
      assert s == [s[0]] + s[1..];
    }
  }

  lemma NameShape(s: Bytes) returns (name: Name)
    requires Terminated(s) && ParseString(s).Ok?
    ensures NameOk(name, false) && NameOn(name, ParseString(s).rest) == s && NameMeaning(name) == ParseString(s).value
  {
    var rest := ParseString(s).rest;
    var text := s[..|s| - |rest|];
    RestIsSuffix(s);
    hide ParseString;
    StringLocal(text, rest, [0]);
    name := Raw(text);
    assert text[0] == s[0];
  }

  lemma RestIsSuffix(s: Bytes)
    requires Terminated(s) && ParseString(s).Ok?
    ensures var rest := ParseString(s).rest; |rest| < |s| && s == s[..|s| - |rest|] + rest && s[0] == 0x22
  {
    hide ScanEnd, Unescape;
  }

  lemma {:induction false} ValueShape(s: Bytes, depth: nat) returns (d: Doc)
    requires Terminated(s) && depth <= NESTING_LIMIT && ParseValue(s, depth).Ok?
    ensures var r := ParseValue(s, depth);
            DocOk(d, false) && s == On(d, r.rest) && Meaning(d) == r.value && depth + Nesting(r.value) <= NESTING_LIMIT
    decreases |s|, 1
  {
    hide ParseArray, ParseObject, ParseString, NameOk, NameOn, NameMeaning, ItemsOn, MembersOn;
    if StartsWith(s, NULL_TEXT) {
      d := DNull;
    } else if StartsWith(s, FALSE_TEXT) {
      d := DFalse;
    } else if StartsWith(s, TRUE_TEXT) {
      d := DTrue;
    } else if s[0] == QUOTE {
      var name := NameShape(s);
      d := DString(name);
    } else if s[0] == OPEN_ARRAY {
      d := ArrayShape(s, depth);
    } else {
      d := ObjectShape(s, depth);
    }
  }

  lemma {:induction false} ArrayShape(s: Bytes, depth: nat) returns (d: Doc)
    requires Terminated(s) && depth <= NESTING_LIMIT && s[0] == OPEN_ARRAY && ParseArray(s, depth).Ok?
    ensures var r := ParseArray(s, depth);
            DocOk(d, false) && s == On(d, r.rest) && Meaning(d) == r.value && depth + Nesting(r.value) <= NESTING_LIMIT
    decreases |s|, 0
  {
    hide ParseItems, SkipWhitespace, ItemsOn, Gap;
    var t := SkipWhitespace(s[1..]);
    assert s == [0x5B] + s[1..];
    if t[0] == CLOSE_ARRAY {
      var gap := Skipped(s[1..]);
      d := DNoItems(gap);
      assert t == [0x5D] + t[1..];
    } else {
      SkippedItems(s[1..], depth + 1);
      var items := ItemsShape(s[1..], depth + 1);
      d := DArray(items);
    }
  }

  lemma {:induction false} ItemsShape(s: Bytes, depth: nat) returns (items: DocItems)
    requires Terminated(s) && depth <= NESTING_LIMIT && ParseItems(s, depth).Ok?
    ensures var r := ParseItems(s, depth);
            && ItemsOk(items, false) && s == ItemsOn(items, r.rest) && ItemsMeaning(items) == r.value
            && depth + ItemsNesting(r.value) <= NESTING_LIMIT
    decreases |s|, 2
  {
    hide ParseValue, SkipWhitespace, On, DocOk, Meaning, Gap;
    var first := SkipWhitespace(s);
    ValueStart(first, depth);
    var before := Skipped(s);
    var head := ValueShape(first, depth);
    var rest := ParseValue(first, depth).rest;
    var t := SkipWhitespace(rest);
    var after := Skipped(rest);
    assert t == [t[0]] + t[1..];
    if t[0] == COMMA {
      var next := ItemsShape(t[1..], depth);
      items := MoreItems(before, head, after, next);
    } else {
      items := LastItem(before, head, after);
    }
  }

  /** A value starts with a byte that is no blank. */
  lemma ValueStart(s: Bytes, depth: nat)
    requires Terminated(s) && ParseValue(s, depth).Ok?
    ensures s[0] > 32
  {
    hide ParseArray, ParseObject, ParseString;
    assert |s| >= 5 ==> s[..5][0] == s[0];
    assert |s| >= 4 ==> s[..4][0] == s[0];
  }

  lemma {:induction false} ObjectShape(s: Bytes, depth: nat) returns (d: Doc)
    requires Terminated(s) && depth <= NESTING_LIMIT && s[0] == OPEN_OBJECT && ParseObject(s, depth).Ok?
    ensures var r := ParseObject(s, depth);
            DocOk(d, false) && s == On(d, r.rest) && Meaning(d) == r.value && depth + Nesting(r.value) <= NESTING_LIMIT
    decreases |s|, 0
  {
    hide ParseMembers, SkipWhitespace, MembersOn, Gap;
    var t := SkipWhitespace(s[1..]);
    assert s == [0x7B] + s[1..];
    if t[0] == CLOSE_OBJECT {
      var gap := Skipped(s[1..]);
      d := DNoMembers(gap);
      assert t == [0x7D] + t[1..];
    } else {
      SkippedMembers(s[1..], depth + 1);
      var members := MembersShape(s[1..], depth + 1);
      d := DObject(members);
    }
  }

  lemma {:induction false} MembersShape(s: Bytes, depth: nat) returns (members: DocMembers)
    requires Terminated(s) && depth <= NESTING_LIMIT && ParseMembers(s, depth).Ok?
    ensures var r := ParseMembers(s, depth);
            && MembersOk(members, false) && s == MembersOn(members, r.rest) && MembersMeaning(members) == r.value
            && depth + MembersNesting(r.value) <= NESTING_LIMIT
    decreases |s|, 2
  {
    hide ParseString, ParseNamed, SkipWhitespace, On, NameOn, DocOk, NameOk, Meaning, NameMeaning, Gap;
    var first := SkipWhitespace(s);
    RestIsSuffix(first);
    var before := Skipped(s);
    var name := NameShape(first);
    var named := ParseString(first).rest;
    var colon, lead, value := NamedShape(named, depth);
    var rest := ParseNamed(named, depth).rest;
    var t := SkipWhitespace(rest);
    var after := Skipped(rest);
    assert t == [t[0]] + t[1..];
    if t[0] == COMMA {
      var next := MembersShape(t[1..], depth);
      members := MoreMembers(before, name, colon, lead, value, after, next);
    } else {
      members := LastMember(before, name, colon, lead, value, after);
    }
  }

  lemma {:induction false} NamedShape(s: Bytes, depth: nat) returns (colon: Bytes, lead: Bytes, d: Doc)
    requires Terminated(s) && depth <= NESTING_LIMIT && ParseNamed(s, depth).Ok?
    ensures var r := ParseNamed(s, depth);
            && Gap(colon, false) && Gap(lead, false) && DocOk(d, false) && Meaning(d) == r.value
            && s == colon + ([0x3A] + (lead + On(d, r.rest))) && depth + Nesting(r.value) <= NESTING_LIMIT
    decreases |s|, 2
  {
    hide ParseValue, SkipWhitespace, On, DocOk, Meaning, Gap;
    var t := SkipWhitespace(s);
    colon := Skipped(s);
    assert t == [0x3A] + t[1..];
    var first := SkipWhitespace(t[1..]);
    ValueStart(first, depth);
    lead := Skipped(t[1..]);
    d := ValueShape(first, depth);
  }

  /** The text is derived, in the parser's sense, with that meaning, and that rest behind it. */
  ghost predicate Derives(d: Doc, s: Bytes, v: Json, rest: Bytes) {
    DocOk(d, false) && s == On(d, rest) && Meaning(d) == v
  }

  /** The parser reads a value from a text exactly when the grammar derives one there, within the nesting limit. */
  lemma ParsesIff(s: Bytes, depth: nat, v: Json, rest: Bytes)
    requires Terminated(s) && Terminated(rest) && depth <= NESTING_LIMIT
    ensures ParseValue(s, depth) == Ok(v, rest) <==> depth + Nesting(v) <= NESTING_LIMIT && exists d :: Derives(d, s, v, rest)
  {
    hide ParseValue, On, Meaning, DocOk;
    if ParseValue(s, depth) == Ok(v, rest) {
      var d := ValueShape(s, depth);
      assert Derives(d, s, v, rest);
    }
    if depth + Nesting(v) <= NESTING_LIMIT && exists d :: Derives(d, s, v, rest) {
      var d :| Derives(d, s, v, rest);
      ValueParses(d, rest, depth);
    }
  }

  // ---------- from the entry points ----------

  function Bom(bom: bool): Bytes {
    if bom then [0xEF, 0xBB, 0xBF] else []
  }

  /** A text: perhaps a byte order mark, blanks, a value, and anything behind it. */
  lemma TextParses(bom: bool, gap: Bytes, d: Doc, junk: Bytes)
    requires Gap(gap, false) && DocOk(d, false)
    ensures Parse(Bom(bom) + (gap + On(d, junk))) == if Nesting(Meaning(d)) <= NESTING_LIMIT then Some(Meaning(d)) else None
  {
    hide ParseValue, On, Meaning, DocOk, SkipWhitespace;
    var t := gap + On(d, junk + [0]);
    OnMore(d, junk, [0]);
    assert Bom(bom) + (gap + On(d, junk)) + [0] == Bom(bom) + t;
    ValueParses(d, junk + [0], 0);
    Starts(d, junk + [0]);
    SkipGap(gap, On(d, junk + [0]));
    BomSkips(bom, gap, On(d, junk + [0]));
  }

  lemma BomSkips(bom: bool, gap: Bytes, s: Bytes)
    requires Gap(gap, false) && |s| >= 2 && s[0] < 0x80 && Terminated(gap + s)
    ensures Terminated(Bom(bom) + (gap + s)) && SkipBom(Bom(bom) + (gap + s)) == gap + s
  {
    var t := Bom(bom) + (gap + s);
    if bom {
      assert t[..3] == [0xEF, 0xBB, 0xBF] && t[3..] == gap + s;
    } else {
      assert t == gap + s;
      assert t[0] < 0x80;
      assert |t| > 4 ==> t[..3][0] == t[0];
    }
  }

  /** Whatever is behind the rest is behind the text. */
  lemma {:induction false} OnMore(d: Doc, rest: Bytes, more: Bytes)
    ensures On(d, rest) + more == On(d, rest + more) && |On(d, rest)| >= |rest|
    decreases d, 0
  {
    match d
    case DString(name) => NameMore(name, rest, more);
    case DNoItems(gap) => assert [0x5B] + (gap + ([0x5D] + rest)) + more == [0x5B] + (gap + ([0x5D] + (rest + more)));
    case DNoMembers(gap) => assert [0x7B] + (gap + ([0x7D] + rest)) + more == [0x7B] + (gap + ([0x7D] + (rest + more)));
    case DArray(items) =>
      ItemsMore(items, rest, more);
      Assoc([0x5B], ItemsOn(items, rest), more);
    case DObject(members) =>
      MembersMore(members, rest, more);
      Assoc([0x7B], MembersOn(members, rest), more);
    case _ =>
  }

  lemma {:induction false} CharsMore(cs: seq<Char>, rest: Bytes, more: Bytes)
    ensures CharsOn(cs, rest) + more == CharsOn(cs, rest + more)
  {
    hide CharText;
    if cs != [] {
      CharsMore(cs[1..], rest, more);
      Assoc(CharText(cs[0]), CharsOn(cs[1..], rest), more);
    }
  }

  lemma NameMore(name: Name, rest: Bytes, more: Bytes)
    ensures NameOn(name, rest) + more == NameOn(name, rest + more) && |NameOn(name, rest)| >= |rest|
  {
    hide CharsOn;
    match name
    case Chars(cs) =>
      CharsMore(cs, [0x22] + rest, more);
      CharsParts(cs, [0x22] + rest);
      Assoc([0x22], rest, more);
      Assoc([0x22], CharsOn(cs, [0x22] + rest), more);
    case Raw(text) => Assoc(text, rest, more);
  }

  lemma {:induction false} ItemsMore(items: DocItems, rest: Bytes, more: Bytes)
    ensures ItemsOn(items, rest) + more == ItemsOn(items, rest + more) && |ItemsOn(items, rest)| >= |rest|
    decreases items, 0
  {
    hide On, ItemsOn;
    var after := ItemsAfter(items, rest);
    match items {
      case LastItem(_, _, _) => Assoc([0x5D], rest, more);
      case MoreItems(_, _, _, next) =>
        ItemsMore(next, rest, more);
        Assoc([0x2C], ItemsOn(next, rest), more);
    }
    ItemsUnfold(items, rest);
    ItemsUnfold(items, rest + more);
    OnMore(items.head, items.after + after, more);
    Assoc(items.after, after, more);
    Assoc(items.before, On(items.head, items.after + after), more);
  }

  lemma ItemsUnfold(items: DocItems, rest: Bytes)
    ensures ItemsOn(items, rest) == items.before + On(items.head, items.after + ItemsAfter(items, rest))
  {
  }

  lemma MembersUnfold(members: DocMembers, rest: Bytes)
    ensures MembersOn(members, rest) ==
            members.before + NameOn(members.name, members.colon + ([0x3A] +
              (members.lead + On(members.value, members.after + MembersAfter(members, rest)))))
  {
  }

  lemma {:induction false} MembersMore(members: DocMembers, rest: Bytes, more: Bytes)
    ensures MembersOn(members, rest) + more == MembersOn(members, rest + more) && |MembersOn(members, rest)| >= |rest|
    decreases members, 0
  {
    hide On, MembersOn, NameOn;
    var after := MembersAfter(members, rest);
    match members {
      case LastMember(_, _, _, _, _, _) => Assoc([0x7D], rest, more);
      case MoreMembers(_, _, _, _, _, _, next) =>
        MembersMore(next, rest, more);
        Assoc([0x2C], MembersOn(next, rest), more);
    }
    var value := On(members.value, members.after + after);
    var named := members.colon + ([0x3A] + (members.lead + value));
    MembersUnfold(members, rest);
    MembersUnfold(members, rest + more);
    OnMore(members.value, members.after + after, more);
    Assoc(members.after, after, more);
    assert named + more == members.colon + ([0x3A] + (members.lead + (value + more)));
    NameMore(members.name, named, more);
    Assoc(members.before, NameOn(members.name, named), more);
  }

  /** And only such a text has a value. */
  lemma TextShape(text: Bytes) returns (bom: bool, gap: Bytes, d: Doc, rest: Bytes)
    requires Parse(text).Some?
    ensures Gap(gap, false) && DocOk(d, false) && text + [0] == Bom(bom) + (gap + On(d, rest)) && Meaning(d) == Parse(text).value
  {
    hide ParseValue, On, Meaning, DocOk, SkipWhitespace, SkipBom, Gap, Bom;
    var s := text + [0];
    var t := SkipBom(s);
    bom := BomShape(s);
    var first := SkipWhitespace(t);
    ValueStart(first, 0);
    gap := Skipped(t);
    d := ValueShape(first, 0);
    rest := ParseValue(first, 0).rest;
  }

  lemma BomShape(s: Bytes) returns (bom: bool)
    requires Terminated(s)
    ensures s == Bom(bom) + SkipBom(s)
  {
    bom := |s| > 4 && s[..3] == [0xEF, 0xBB, 0xBF];
    assert |s| > 4 ==> s == s[..3] + s[3..];
    assert [] + s == s;
  }

  // ---------- the printer's texts ----------

  /** A line break and n tabs in a formatted text. */
  function Line(fmt: bool, n: nat): Bytes {
    if fmt then [0x0A] + seq(n, i => 0x09) else []
  }

  function Only(fmt: bool, b: Byte): Bytes {
    if fmt then [b] else []
  }

  /**
    The derivation of the text printed for a value at a nesting depth. Unformatted there are no blanks. Formatted,
    a space follows each comma of an array; each member of an object and the closing brace stand on a line of
    their own, indented by their depth, and a tab follows each colon.
   */
  function DocOf(v: Json, depth: nat, fmt: bool): Doc
    decreases v
  {
    match v
    case Null => DNull
    case False => DFalse
    case True => DTrue
    case Str(s) => DString(Chars(Forms(s)))
    case Arr(items) => if items.NoItems? then DNoItems([]) else DArray(ItemsOf([], items, depth + 1, fmt))
    case Obj(members) => if members.NoMembers? then DNoMembers(Line(fmt, depth)) else DObject(MembersOf(members, depth + 1, fmt))
  }

  function ItemsOf(before: Bytes, items: Items, depth: nat, fmt: bool): DocItems
    requires items.Item?
    decreases items
  {
    var head := DocOf(items.head, depth, fmt);
    if items.next.NoItems? then LastItem(before, head, [])
    else MoreItems(before, head, [], ItemsOf(Only(fmt, 0x20), items.next, depth, fmt))
  }

  /** The members stand at the given depth, their object one level above. */
  function MembersOf(members: Members, depth: nat, fmt: bool): DocMembers
    requires members.Member? && depth > 0
    decreases members
  {
    var name, value := Chars(Forms(members.name)), DocOf(members.value, depth, fmt);
    if members.next.NoMembers? then
      LastMember(Line(fmt, depth), name, [], Only(fmt, 0x09), value, Line(fmt, depth - 1))
    else
      MoreMembers(Line(fmt, depth), name, [], Only(fmt, 0x09), value, [], MembersOf(members.next, depth, fmt))
  }

  lemma GapsAre(fmt: bool, n: nat)
    ensures Gap([], true) && Gap(Line(fmt, n), true) && Gap(Only(fmt, 0x20), true) && Gap(Only(fmt, 0x09), true)
  {
  }

  /** The printed text is one of the standard's, and it means the value. */
  lemma {:induction false} DocMeans(v: Json, depth: nat, fmt: bool)
    ensures DocOk(DocOf(v, depth, fmt), true) && DocOk(DocOf(v, depth, fmt), false) && Meaning(DocOf(v, depth, fmt)) == v
    decreases v, 0
  {
    hide Gap, Forms, CharsOk, CharsMeaning, Line;
    GapsAre(fmt, depth);
    match v {
      case Str(s) => FormsMean(s);
      case Arr(items) =>
        if items.Item? {
          ItemsMean([], items, depth + 1, fmt);
        }
      case Obj(members) =>
        if members.Member? {
          MembersMean(members, depth + 1, fmt);
        }
      case _ =>
    }
    StrictIsOk(DocOf(v, depth, fmt));
  }

  lemma FormsMean(s: Bytes)
    ensures CharsOk(Forms(s), true) && CharsOk(Forms(s), false) && CharsMeaning(Forms(s)) == s
  {
    StringTextIs(s, []);
  }

  lemma {:induction false} ItemsMean(before: Bytes, items: Items, depth: nat, fmt: bool)
    requires items.Item? && Gap(before, true)
    ensures var d := ItemsOf(before, items, depth, fmt); ItemsOk(d, true) && ItemsOk(d, false) && ItemsMeaning(d) == items
    decreases items, 0
  {
    hide Gap, DocOf, Only;
    GapsAre(fmt, depth);
    DocMeans(items.head, depth, fmt);
    if items.next.Item? {
      ItemsMean(Only(fmt, 0x20), items.next, depth, fmt);
    }
    StrictItems(ItemsOf(before, items, depth, fmt));
  }

  lemma {:induction false} MembersMean(members: Members, depth: nat, fmt: bool)
    requires members.Member? && depth > 0
    ensures var d := MembersOf(members, depth, fmt); MembersOk(d, true) && MembersOk(d, false) && MembersMeaning(d) == members
    decreases members, 0
  {
    hide Gap, DocOf, Only, Line, Forms, CharsOk, CharsMeaning;
    GapsAre(fmt, depth);
    GapsAre(fmt, depth - 1);
    FormsMean(members.name);
    DocMeans(members.value, depth, fmt);
    if members.next.Member? {
      MembersMean(members.next, depth, fmt);
    }
    StrictMembers(MembersOf(members, depth, fmt));
  }

  lemma BlanksAre(fmt: bool, n: nat)
    ensures Line(fmt, n) == Blank(fmt, [NEWLINE]) + Blank(fmt, Tabs(n))
    ensures Only(fmt, 0x20) == Blank(fmt, [SPACE]) && Only(fmt, 0x09) == Blank(fmt, [TAB])
  {
  }

  /** What is printed is exactly that derivation's text. */
  lemma {:induction false} TextIs(v: Json, depth: nat, fmt: bool, rest: Bytes)
    ensures Text(v, depth, fmt) + rest == On(DocOf(v, depth, fmt), rest)
    decreases v, 0
  {
    hide ItemsText, MembersText, ItemsOn, MembersOn, ItemsOf, MembersOf, Forms, StringOn, Blank, Tabs, Line, StringText;
    match v
    case Str(s) => StringTextIs(s, rest);
    case Arr(items) =>
      var inside := ItemsText(items, depth + 1, fmt);
      assert [OPEN_ARRAY] + inside + [CLOSE_ARRAY] + rest == [OPEN_ARRAY] + (inside + ([CLOSE_ARRAY] + rest));
      if items.Item? {
        ItemsAre([], items, depth + 1, fmt, rest);
        assert [] + (inside + ([CLOSE_ARRAY] + rest)) == inside + ([CLOSE_ARRAY] + rest);
      } else {
        NoText(depth + 1, fmt);
        assert inside + ([CLOSE_ARRAY] + rest) == [] + ([CLOSE_ARRAY] + rest);
      }
    case Obj(members) =>
      var nl, inside, tabs := Blank(fmt, [NEWLINE]), MembersText(members, depth + 1, fmt), Blank(fmt, Tabs(depth));
      var end := [CLOSE_OBJECT] + rest;
      assert [OPEN_OBJECT] + nl + inside + tabs + [CLOSE_OBJECT] + rest == [OPEN_OBJECT] + (nl + (inside + (tabs + end)));
      BlanksAre(fmt, depth);
      if members.Member? {
        MembersAre(members, depth + 1, fmt, rest);
      } else {
        NoText(depth + 1, fmt);
        assert nl + (inside + (tabs + end)) == (nl + tabs) + end;
      }
    case _ =>
  }

  lemma NoText(depth: nat, fmt: bool)
    ensures ItemsText(NoItems, depth, fmt) == [] && MembersText(NoMembers, depth, fmt) == []
  {
  }

  lemma {:induction false} ItemsAre(before: Bytes, items: Items, depth: nat, fmt: bool, rest: Bytes)
    requires items.Item?
    ensures before + (ItemsText(items, depth, fmt) + ([CLOSE_ARRAY] + rest)) == ItemsOn(ItemsOf(before, items, depth, fmt), rest)
    decreases items, 0
  {
    hide Text, DocOf, On, Blank;
    var head, end := Text(items.head, depth, fmt), [CLOSE_ARRAY] + rest;
    var d := ItemsOf(before, items, depth, fmt);
    var after := ItemsAfter(d, rest);
    if items.next.NoItems? {
      assert after == end;
    } else {
      BlanksAre(fmt, depth);
      ItemsAre(Only(fmt, 0x20), items.next, depth, fmt, rest);
      assert after == [COMMA] + (Blank(fmt, [SPACE]) + (ItemsText(items.next, depth, fmt) + end));
    }
    ItemsTextParts(items, depth, fmt, end);
    TextIs(items.head, depth, fmt, [] + after);
    assert [] + after == after;
  }

  lemma ItemsTextParts(items: Items, depth: nat, fmt: bool, end: Bytes)
    requires items.Item?
    ensures ItemsText(items, depth, fmt) + end ==
            Text(items.head, depth, fmt) +
            (if items.next.NoItems? then end else [COMMA] + (Blank(fmt, [SPACE]) + (ItemsText(items.next, depth, fmt) + end)))
  {
    hide Text, Blank;
  }

  lemma {:induction false} MembersAre(members: Members, depth: nat, fmt: bool, rest: Bytes)
    requires members.Member? && depth > 0
    ensures Blank(fmt, [NEWLINE]) + (MembersText(members, depth, fmt) + (Blank(fmt, Tabs(depth - 1)) + ([CLOSE_OBJECT] + rest))) ==
            MembersOn(MembersOf(members, depth, fmt), rest)
    decreases members, 0
  {
    hide Text, DocOf, On, Blank, Tabs, Line, StringText, StringOn, Forms, MembersText;
    var nl, close := Blank(fmt, [NEWLINE]), Blank(fmt, Tabs(depth - 1)) + ([CLOSE_OBJECT] + rest);
    var d := MembersOf(members, depth, fmt);
    var tail := MembersTail(members, depth, fmt, close);
    BlanksAre(fmt, depth);
    BlanksAre(fmt, depth - 1);
    var end := d.after + MembersAfter(d, rest);
    if members.next.NoMembers? {
      assert end == nl + close by {
        Assoc(nl, Blank(fmt, Tabs(depth - 1)), [CLOSE_OBJECT] + rest);
      }
    } else {
      MembersAre(members.next, depth, fmt, rest);
      assert end == [COMMA] + (nl + (MembersText(members.next, depth, fmt) + close));
    }
    MembersTextParts(members, depth, fmt, close);
    TextIs(members.value, depth, fmt, end);
    var named := [COLON] + (Blank(fmt, [TAB]) + (Text(members.value, depth, fmt) + end));
    StringTextIs(members.name, named);
    assert [] + named == named;
    Assoc(nl, Blank(fmt, Tabs(depth)), StringText(members.name) + named);
  }

  /** What follows a member's value in the printed text. */
  function MembersTail(members: Members, depth: nat, fmt: bool, close: Bytes): Bytes
    requires members.Member?
  {
    if members.next.NoMembers? then Blank(fmt, [NEWLINE]) + close
    else [COMMA] + (Blank(fmt, [NEWLINE]) + (MembersText(members.next, depth, fmt) + close))
  }

  lemma MembersTextParts(members: Members, depth: nat, fmt: bool, close: Bytes)
    requires members.Member?
    ensures MembersText(members, depth, fmt) + close ==
            Blank(fmt, Tabs(depth)) + (StringText(members.name) + ([COLON] + (Blank(fmt, [TAB]) +
              (Text(members.value, depth, fmt) + MembersTail(members, depth, fmt, close)))))
  {
    hide Text, StringText, Blank, Tabs;
    var tabs, name, tab, value := Blank(fmt, Tabs(depth)), StringText(members.name), Blank(fmt, [TAB]), Text(members.value, depth, fmt);
    var comma := if members.next.NoMembers? then [] else [COMMA];
    var nl, next := Blank(fmt, [NEWLINE]), MembersText(members.next, depth, fmt);
    var tail := comma + nl + next + close;
    MembersTailIs(members, depth, fmt, close, tail);
    PartsJoin(tabs, name, tab, value, comma, nl, next, close);
  }

  lemma MembersTailIs(members: Members, depth: nat, fmt: bool, close: Bytes, tail: Bytes)
    requires members.Member?
    requires tail == (if members.next.NoMembers? then [] else [COMMA]) + Blank(fmt, [NEWLINE]) + MembersText(members.next, depth, fmt) + close
    ensures tail == MembersTail(members, depth, fmt, close)
  {
    hide Blank;
  }

  lemma PartsJoin(tabs: Bytes, name: Bytes, tab: Bytes, value: Bytes, comma: Bytes, nl: Bytes, next: Bytes, close: Bytes)
    ensures tabs + name + [COLON] + tab + value + comma + nl + next + close ==
            tabs + (name + ([COLON] + (tab + (value + (comma + nl + next + close)))))
  {
    var tail := comma + nl + next + close;
    Assoc(tabs + name + [COLON] + tab + value, comma, nl);
    Assoc(tabs + name + [COLON] + tab + value, comma + nl, next);
    Assoc(tabs + name + [COLON] + tab + value, comma + nl + next, close);
    Assoc(tabs + name + [COLON] + tab, value, tail);
    Assoc(tabs + name + [COLON], tab, value + tail);
    Assoc(tabs + name, [COLON], tab + (value + tail));
    Assoc(tabs, name, [COLON] + (tab + (value + tail)));
  }

  /**
    The printed text of every tree, formatted or not, is parsed back to the tree
    exactly when its nesting fits under the limit, and is refused otherwise.
   */
  lemma ValueRoundTrip(v: Json, d: nat, fmt: bool, rest: Bytes, depth: nat)
    requires Terminated(rest) && depth <= NESTING_LIMIT
    ensures Terminated(Text(v, d, fmt) + rest)
    ensures ParseValue(Text(v, d, fmt) + rest, depth) == Outcome(depth + Nesting(v) <= NESTING_LIMIT, v, rest)
  {
    hide Text, ParseValue, On, DocOf, Meaning, DocOk;
    TextIs(v, d, fmt, rest);
    DocMeans(v, d, fmt);
    ValueParses(DocOf(v, d, fmt), rest, depth);
  }

  /** Parsing what cJSON_Print or cJSON_PrintUnformatted composed. */
  lemma PrintParse(v: Json, fmt: bool)
    ensures Parse(Text(v, 0, fmt)) == if Nesting(v) <= NESTING_LIMIT then Some(v) else None
  {
    hide Text, Parse, On, DocOf, Meaning, DocOk;
    TextIs(v, 0, fmt, []);
    DocMeans(v, 0, fmt);
    TextParses(false, [], DocOf(v, 0, fmt), []);
    assert Text(v, 0, fmt) + [] == Text(v, 0, fmt);
    assert [] + ([] + On(DocOf(v, 0, fmt), [])) == On(DocOf(v, 0, fmt), []);
  }
}
