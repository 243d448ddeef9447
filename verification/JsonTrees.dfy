/**
  Values of source/external/cJSON.c without numbers: the text the printer
  composes, and the recursive descent parser.
 */
module JsonTrees {
  import opened Options
  import opened Sequences
  import opened Octets
  import opened JsonStrings

  const NESTING_LIMIT: nat := 1000

  /** Children form linked lists, as the items of the source do. */
  datatype Json = Null | False | True | Str(s: Bytes) | Arr(items: Items) | Obj(members: Members)
  datatype Items = NoItems | Item(head: Json, next: Items)
  datatype Members = NoMembers | Member(name: Bytes, value: Json, next: Members)

  const NULL_TEXT: Bytes := [110, 117, 108, 108]
  const FALSE_TEXT: Bytes := [102, 97, 108, 115, 101]
  const TRUE_TEXT: Bytes := [116, 114, 117, 101]
  const OPEN_ARRAY: Byte := 91
  const CLOSE_ARRAY: Byte := 93
  const OPEN_OBJECT: Byte := 123
  const CLOSE_OBJECT: Byte := 125
  const COMMA: Byte := 44
  const COLON: Byte := 58
  const TAB: Byte := 9
  const NEWLINE: Byte := 10
  const SPACE: Byte := 32

  // ---------- printing ----------

  function Tabs(n: nat): Bytes {
    seq(n, i => TAB)
  }

  /** The blanks of a formatted print; nothing in an unformatted one. */
  function Blank(fmt: bool, b: Bytes): Bytes {
    if fmt then b else []
  }

  /** What print_value composes at a nesting depth. */
  function Text(v: Json, depth: nat, fmt: bool): Bytes
    decreases v
  {
    match v
    case Null => NULL_TEXT
    case False => FALSE_TEXT
    case True => TRUE_TEXT
    case Str(s) => StringText(s)
    case Arr(items) => [OPEN_ARRAY] + ItemsText(items, depth + 1, fmt) + [CLOSE_ARRAY]
    case Obj(members) =>
      [OPEN_OBJECT] + Blank(fmt, [NEWLINE]) + MembersText(members, depth + 1, fmt) + Blank(fmt, Tabs(depth)) + [CLOSE_OBJECT]
  }

  function ItemsText(items: Items, depth: nat, fmt: bool): Bytes
    decreases items
  {
    match items
    case NoItems => []
    case Item(head, next) =>
      Text(head, depth, fmt)
      + (if next.NoItems? then [] else [COMMA] + Blank(fmt, [SPACE]) + ItemsText(next, depth, fmt))
  }

  function MembersText(members: Members, depth: nat, fmt: bool): Bytes
    decreases members
  {
    match members
    case NoMembers => []
    case Member(name, value, next) =>
      Blank(fmt, Tabs(depth)) + StringText(name) + [COLON] + Blank(fmt, [TAB]) + Text(value, depth, fmt)
      + (if next.NoMembers? then [] else [COMMA]) + Blank(fmt, [NEWLINE]) + MembersText(next, depth, fmt)
  }

  // ---------- parsing ----------

  /** buffer_skip_whitespace: it stops on the terminating zero. */
  function SkipWhitespace(s: Bytes): (r: Bytes)
    requires Terminated(s)
    ensures Terminated(r) && |r| <= |s|
  {
    if s[0] > 32 || |s| == 1 then s else SkipWhitespace(s[1..])
  }

  predicate StartsWith(s: Bytes, t: Bytes) {
    |t| <= |s| && s[..|t|] == t
  }

  /** parse_value; a number is not part of this model and counts as unreadable. */
  function ParseValue(s: Bytes, depth: nat): (r: Parsed<Json>)
    requires Terminated(s)
    ensures r.Ok? ==> Terminated(r.rest) && |r.rest| < |s|
    decreases |s|, 1
  {
    if StartsWith(s, NULL_TEXT) then After(s, NULL_TEXT); Ok(Null, s[4..])
    else if StartsWith(s, FALSE_TEXT) then After(s, FALSE_TEXT); Ok(False, s[5..])
    else if StartsWith(s, TRUE_TEXT) then After(s, TRUE_TEXT); Ok(True, s[4..])
    else if s[0] == QUOTE then
      match ParseString(s)
      case Fail => Fail
      case Ok(bytes, rest) => Ok(Str(bytes), rest)
    else if s[0] == OPEN_ARRAY then ParseArray(s, depth)
    else if s[0] == OPEN_OBJECT then ParseObject(s, depth)
    else Fail
  }

  /** A token that is not the terminating zero leaves that zero to be read. */
  lemma After(s: Bytes, t: Bytes)
    requires Terminated(s) && StartsWith(s, t) && t != [] && t[|t| - 1] != 0
    ensures Terminated(s[|t|..])
  {
    assert s[|t| - 1] == s[..|t|][|t| - 1];
  }

  function ParseArray(s: Bytes, depth: nat): (r: Parsed<Json>)
    requires Terminated(s) && s[0] == OPEN_ARRAY
    ensures r.Ok? ==> Terminated(r.rest) && |r.rest| < |s|
    decreases |s|, 0
  {
    if depth >= NESTING_LIMIT then Fail
    else
      var t := SkipWhitespace(s[1..]);
      if t[0] == CLOSE_ARRAY then Ok(Arr(NoItems), t[1..])
      else
        match ParseItems(t, depth + 1)
        case Fail => Fail
        case Ok(items, rest) => Ok(Arr(items), rest)
  }

  /** The loop of parse_array, from just after the bracket or a comma. */
  function ParseItems(s: Bytes, depth: nat): (r: Parsed<Items>)
    requires Terminated(s)
    ensures r.Ok? ==> Terminated(r.rest) && |r.rest| < |s|
    decreases |s|, 2
  {
    match ParseValue(SkipWhitespace(s), depth)
    case Fail => Fail
    case Ok(v, after) =>
      var t := SkipWhitespace(after);
      if t[0] == COMMA then
        match ParseItems(t[1..], depth)
        case Fail => Fail
        case Ok(items, rest) => Ok(Item(v, items), rest)
      else if t[0] == CLOSE_ARRAY then Ok(Item(v, NoItems), t[1..])
      else Fail
  }

  function ParseObject(s: Bytes, depth: nat): (r: Parsed<Json>)
    requires Terminated(s) && s[0] == OPEN_OBJECT
    ensures r.Ok? ==> Terminated(r.rest) && |r.rest| < |s|
    decreases |s|, 0
  {
    if depth >= NESTING_LIMIT then Fail
    else
      var t := SkipWhitespace(s[1..]);
      if t[0] == CLOSE_OBJECT then Ok(Obj(NoMembers), t[1..])
      else
        match ParseMembers(t, depth + 1)
        case Fail => Fail
        case Ok(members, rest) => Ok(Obj(members), rest)
  }

  /** The part of a member after its name. */
  function ParseNamed(s: Bytes, depth: nat): (r: Parsed<Json>)
    requires Terminated(s)
    ensures r.Ok? ==> Terminated(r.rest) && |r.rest| < |s|
    decreases |s|, 2
  {
    var t := SkipWhitespace(s);
    if t[0] != COLON then Fail else ParseValue(SkipWhitespace(t[1..]), depth)
  }

  /** The loop of parse_object, from just after the brace or a comma. */
  function ParseMembers(s: Bytes, depth: nat): (r: Parsed<Members>)
    requires Terminated(s)
    ensures r.Ok? ==> Terminated(r.rest) && |r.rest| < |s|
    decreases |s|, 2
  {
    match ParseString(SkipWhitespace(s))
    case Fail => Fail
    case Ok(name, named) =>
      match ParseNamed(named, depth)
      case Fail => Fail
      case Ok(v, after) =>
        var t := SkipWhitespace(after);
        if t[0] == COMMA then
          match ParseMembers(t[1..], depth)
          case Fail => Fail
          case Ok(members, rest) => Ok(Member(name, v, members), rest)
        else if t[0] == CLOSE_OBJECT then Ok(Member(name, v, NoMembers), t[1..])
        else Fail
  }

  /** cJSON_Parse of a string without its terminating zero; what follows the value is ignored. */
  function Parse(text: Bytes): Option<Json> {
    match ParseValue(SkipWhitespace(SkipBom(text + [0])), 0)
    case Fail => None
    case Ok(v, _) => Some(v)
  }

  /** skip_utf8_bom. */
  function SkipBom(s: Bytes): (r: Bytes)
    requires Terminated(s)
    ensures Terminated(r)
  {
    if |s| > 4 && s[..3] == [0xEF, 0xBB, 0xBF] then s[3..] else s
  }

  // ---------- the round trip ----------

  function Max(a: nat, b: nat): nat {
    if a < b then b else a
  }

  /** How many arrays and objects are open at once. */
  function Nesting(v: Json): nat {
    match v
    case Arr(items) => 1 + ItemsNesting(items)
    case Obj(members) => 1 + MembersNesting(members)
    case _ => 0
  }

  function ItemsNesting(items: Items): nat {
    match items
    case NoItems => 0
    case Item(head, next) => Max(Nesting(head), ItemsNesting(next))
  }

  function MembersNesting(members: Members): nat {
    match members
    case NoMembers => 0
    case Member(_, value, next) => Max(Nesting(value), MembersNesting(next))
  }

  /** Strings and names come from C strings. */
  ghost predicate Clean(v: Json) {
    match v
    case Str(s) => NulFree(s)
    case Arr(items) => CleanItems(items)
    case Obj(members) => CleanMembers(members)
    case _ => true
  }

  ghost predicate CleanItems(items: Items) {
    items.NoItems? || (Clean(items.head) && CleanItems(items.next))
  }

  ghost predicate CleanMembers(members: Members) {
    members.NoMembers? || (NulFree(members.name) && Clean(members.value) && CleanMembers(members.next))
  }
}
