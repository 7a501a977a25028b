/**
 parson's recursive-descent reader as functions of the text and a cursor, and what
 every tree it accepts satisfies.
 */
module JsonParse {
  import opened CString
  import opened JsonTree
  import opened JsonString
  import opened JsonNumber
  import JsonPrint

  /** `token` stands at `p`, compared as `strncmp` does: no further than the terminator. */
  predicate Token(s: bytes, p: nat, token: bytes)
    requires p <= |s|
  {
    token <= s[p..]
  }

  function ParseBoolean(s: bytes, p: nat): (r: Option<(Json, nat)>)
    requires p <= |s|
    ensures r.Some? ==> p < r.value.1 <= |s|
  {
    if Token(s, p, JsonPrint.TRUE_TEXT) then Some((Boolean(true), p + 4))
    else if Token(s, p, JsonPrint.FALSE_TEXT) then Some((Boolean(false), p + 5))
    else None
  }

  function ParseNull(s: bytes, p: nat): (r: Option<(Json, nat)>)
    requires p <= |s|
    ensures r.Some? ==> p < r.value.1 <= |s|
  {
    if Token(s, p, JsonPrint.NULL_TEXT) then Some((Null, p + 4)) else None
  }

  /** `parse_value`. */
  function ParseValue(s: bytes, p: nat, nesting: nat): (r: Option<(Json, nat)>)
    requires p <= |s|
    ensures r.Some? ==> p <= r.value.1 <= |s|
    decreases |s| - p, 2
  {
    if nesting > MAX_NESTING then None
    else
      var q := SkipSpaces(s, p);
      var c := Peek(s, q);
      if c == LBRACE then ParseObject(s, q, nesting + 1)
      else if c == LBRACKET then ParseArray(s, q, nesting + 1)
      else if c == QUOTE then
        match QuotedString(s, q)
        case None => None
        case Some((chars, end)) => Some((String(chars), end))
      else if c == LETTER_F || c == LETTER_T then ParseBoolean(s, q)
      else if c == MINUS || IsDigit(c) then
        match ParseNumber(s, q)
        case None => None
        case Some((x, end)) => Some((Number(x), end))
      else if c == LETTER_N then ParseNull(s, q)
      else None
  }

  /** `parse_object_value`, its members being read with `nesting`. */
  function ParseObject(s: bytes, p: nat, nesting: nat): (r: Option<(Json, nat)>)
    requires p < |s| && s[p] == LBRACE
    ensures r.Some? ==> p < r.value.1 <= |s|
    decreases |s| - p, 1
  {
    var q := SkipSpaces(s, p + 1);
    if Peek(s, q) == RBRACE then Some((Object([]), q + 1)) else ParseMembers(s, q, nesting, [])
  }

  /** The loop of `parse_object_value` with the members in `acc` read already. */
  function ParseMembers(s: bytes, p: nat, nesting: nat, acc: seq<Member>): (r: Option<(Json, nat)>)
    requires p <= |s|
    ensures r.Some? ==> p < r.value.1 <= |s|
    decreases |s| - p, 3
  {
    match ParseMember(s, p, nesting, acc)
    case None => None
    case Some((acc', e)) =>
      var f := SkipSpaces(s, e);
      if Peek(s, f) == COMMA then ParseMembers(s, SkipSpaces(s, f + 1), nesting, acc')
      else if Peek(s, f) == RBRACE then Some((Object(acc'), f + 1))
      else None
  }

  /** One round of that loop: a key, a colon and a value that go into the object. */
  function ParseMember(s: bytes, p: nat, nesting: nat, acc: seq<Member>): (r: Option<(seq<Member>, nat)>)
    requires p <= |s|
    ensures r.Some? ==> p < r.value.1 <= |s| && |r.value.0| == |acc| + 1
    decreases |s| - p, 2
  {
    match QuotedString(s, p)
    case None => None
    case Some((key, k)) =>
      if StrLen(key) != |key| then None
      else
        var c := SkipSpaces(s, k);
        if Peek(s, c) != COLON then None
        else
          match ParseValue(s, c + 1, nesting)
          case None => None
          case Some((v, e)) => if Find(acc, key).Some? then None else Some((acc + [Member(key, v)], e))
  }

  /** `parse_array_value`, its items being read with `nesting`. */
  function ParseArray(s: bytes, p: nat, nesting: nat): (r: Option<(Json, nat)>)
    requires p < |s| && s[p] == LBRACKET
    ensures r.Some? ==> p < r.value.1 <= |s|
    decreases |s| - p, 1
  {
    var q := SkipSpaces(s, p + 1);
    if Peek(s, q) == RBRACKET then Some((Array([]), q + 1)) else ParseItems(s, q, nesting, [])
  }

  /** The loop of `parse_array_value` with the items in `acc` read already. */
  function ParseItems(s: bytes, p: nat, nesting: nat, acc: seq<Json>): (r: Option<(Json, nat)>)
    requires p <= |s|
    ensures r.Some? ==> p < r.value.1 <= |s|
    decreases |s| - p, 3
  {
    match ParseValue(s, p, nesting)
    case None => None
    case Some((v, e)) =>
      var f := SkipSpaces(s, e);
      if Peek(s, f) == COMMA then ParseItems(s, SkipSpaces(s, f + 1), nesting, acc + [v])
      else if Peek(s, f) == RBRACKET then Some((Array(acc + [v]), f + 1))
      else None
  }

  /** One round of the loop over items. */
  lemma ItemsRound(s: bytes, p: nat, nesting: nat, acc: seq<Json>)
    requires p <= |s|
    ensures ParseValue(s, p, nesting) == None ==> ParseItems(s, p, nesting, acc) == None
    ensures ParseValue(s, p, nesting).Some? ==>
              var (v, e) := ParseValue(s, p, nesting).value;
              var f := SkipSpaces(s, e);
              ParseItems(s, p, nesting, acc)
              == if Peek(s, f) == COMMA then ParseItems(s, SkipSpaces(s, f + 1), nesting, acc + [v])
                 else if Peek(s, f) == RBRACKET then Some((Array(acc + [v]), f + 1))
                 else None
  {
  }

  /** At the end of the text no further member or item is found. */
  lemma NothingAtTheEnd(s: bytes, p: nat, nesting: nat, members: seq<Member>, items: seq<Json>)
    requires p <= |s| && Peek(s, p) == NUL
    ensures ParseMembers(s, p, nesting, members) == None && ParseItems(s, p, nesting, items) == None
  {
  }

  /** The position behind a byte order mark. */
  function SkipByteOrderMark(s: bytes): (p: nat)
    ensures p <= |s|
  {
    if |s| >= 3 && s[0] == 0xEF && s[1] == 0xBB && s[2] == 0xBF then 3 else 0
  }

  /** `json_parse_string`: the first value of the text; what follows it is ignored. */
  function ParseText(s: bytes): Option<Json> {
    match ParseValue(s, SkipByteOrderMark(s), 0)
    case None => None
    case Some((v, _)) => Some(v)
  }

  // ----- what is accepted is well formed -----

  lemma {:induction false} ParsedIsWellFormed(s: bytes, p: nat, nesting: nat)
    requires p <= |s| && ParseValue(s, p, nesting).Some?
    ensures WellFormed(ParseValue(s, p, nesting).value.0, nesting)
    decreases |s| - p, 2
  {
    var q := SkipSpaces(s, p);
    if Peek(s, q) == LBRACE {
      var q' := SkipSpaces(s, q + 1);
      if Peek(s, q') != RBRACE {
        ParsedMembersAreWellFormed(s, q', nesting + 1, []);
      }
    } else if Peek(s, q) == LBRACKET {
      var q' := SkipSpaces(s, q + 1);
      if Peek(s, q') != RBRACKET {
        ParsedItemsAreWellFormed(s, q', nesting + 1, []);
      }
    }
  }

  lemma {:induction false} ParsedMembersAreWellFormed(s: bytes, p: nat, nesting: nat, acc: seq<Member>)
    requires p <= |s| && ParseMembers(s, p, nesting, acc).Some?
    requires WellFormedMembers(acc, nesting)
    ensures ParseMembers(s, p, nesting, acc).value.0.Object?
    ensures WellFormedMembers(ParseMembers(s, p, nesting, acc).value.0.members, nesting)
    decreases |s| - p, 3
  {
    hide QuotedString, SkipSpaces, ParseValue;
    var (key, k) := QuotedString(s, p).value;
    ParsedIsWellFormed(s, SkipSpaces(s, k) + 1, nesting);
    var (acc', e) := ParseMember(s, p, nesting, acc).value;
    var f := SkipSpaces(s, e);
    if Peek(s, f) == COMMA {
      ParsedMembersAreWellFormed(s, SkipSpaces(s, f + 1), nesting, acc');
    }
  }

  lemma {:induction false} ParsedItemsAreWellFormed(s: bytes, p: nat, nesting: nat, acc: seq<Json>)
    requires p <= |s| && ParseItems(s, p, nesting, acc).Some?
    requires forall i | 0 <= i < |acc| :: WellFormed(acc[i], nesting)
    ensures ParseItems(s, p, nesting, acc).value.0.Array?
    ensures var items := ParseItems(s, p, nesting, acc).value.0.items;
            forall i | 0 <= i < |items| :: WellFormed(items[i], nesting)
    decreases |s| - p, 3
  {
    hide SkipSpaces, ParseValue;
    ParsedIsWellFormed(s, p, nesting);
    var (v, e) := ParseValue(s, p, nesting).value;
    var f := SkipSpaces(s, e);
    if Peek(s, f) == COMMA {
      ParsedItemsAreWellFormed(s, SkipSpaces(s, f + 1), nesting, acc + [v]);
    }
  }

  /** Whatever the text, a tree the reader accepts is well formed. */
  lemma ParseTextIsWellFormed(s: bytes)
    requires ParseText(s).Some?
    ensures WellFormed(ParseText(s).value, 0)
  {
    ParsedIsWellFormed(s, SkipByteOrderMark(s), 0);
  }
}
