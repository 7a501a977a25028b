/**
 JSON texts as RFC 8259 spells them, with white space around every token, and the proof
 that the reader takes them for the values that they spell.
 */
module JsonGrammar {
  import opened CString
  import opened JsonTree
  import opened JsonString
  import opened JsonNumber
  import opened JsonParse
  import JsonPrint
  import Num = JsonNumeral
  import Lit = JsonLiteral

  /** How a value is spelled; a number carries the real that its numeral denotes. */
  datatype Spelling =
    | NullWord
    | TrueWord
    | FalseWord
    | Figure(numeral: Num.Numeral, x: real)
    | Characters(chars: seq<Lit.Char>)
    | List(blank: bytes, items: seq<Spaced>)
    | Record(blank: bytes, entries: seq<Entry>)

  /** A value between white space, and a member: a key between white space, a colon, and such a value. */
  datatype Spaced = Spaced(before: bytes, spelling: Spelling, behind: bytes)
  datatype Entry = Entry(before: bytes, key: seq<Lit.Char>, behindKey: bytes, value: Spaced)

  // ----- the text, the value, and which spellings there are -----

  function Text(c: Spelling): bytes
    decreases c, 0
  {
    match c
    case NullWord => Ascii("null")
    case TrueWord => Ascii("true")
    case FalseWord => Ascii("false")
    case Figure(numeral, _) => numeral.Text()
    case Characters(chars) => Lit.Literal(chars)
    case List(blank, items) =>
      [Byte('[')] + (if items == [] then blank + [Byte(']')] else ItemsText(items))
    case Record(blank, entries) =>
      [Byte('{')] + (if entries == [] then blank + [Byte('}')] else EntriesText(entries))
  }

  function SpacedText(e: Spaced): bytes
    decreases e, 1
  {
    e.before + (Text(e.spelling) + e.behind)
  }

  /** Items with commas between them, and the closing bracket. */
  function ItemsText(items: seq<Spaced>): bytes
    requires items != []
    decreases items, 2
  {
    SpacedText(items[0]) + if |items| == 1 then [Byte(']')] else [Byte(',')] + ItemsText(items[1..])
  }

  function EntryText(e: Entry): bytes
    decreases e, 2
  {
    e.before + (Lit.Literal(e.key) + (e.behindKey + ([Byte(':')] + SpacedText(e.value))))
  }

  function EntriesText(entries: seq<Entry>): bytes
    requires entries != []
    decreases entries, 3
  {
    EntryText(entries[0]) + if |entries| == 1 then [Byte('}')] else [Byte(',')] + EntriesText(entries[1..])
  }

  /** White space of the C locale. */
  predicate White(t: bytes) {
    forall i | 0 <= i < |t| :: t[i] == 0x20 || 0x09 <= t[i] <= 0x0D
  }

  ghost predicate Legal(c: Spelling)
    decreases c, 0
  {
    match c
    case Figure(numeral, x) => numeral.Taken() && numeral.Denotes(x)
    case Characters(chars) => Lit.AllLegal(chars)
    case List(blank, items) => White(blank) && LegalItems(items)
    case Record(blank, entries) => White(blank) && LegalEntries(entries)
    case _ => true
  }

  ghost predicate LegalSpaced(e: Spaced)
    decreases e, 1
  {
    White(e.before) && Legal(e.spelling) && White(e.behind)
  }

  ghost predicate LegalEntry(e: Entry)
    decreases e, 2
  {
    White(e.before) && Lit.AllLegal(e.key) && White(e.behindKey) && LegalSpaced(e.value)
  }

  ghost predicate LegalItems(items: seq<Spaced>)
    decreases items, 3
  {
    items != [] ==> LegalSpaced(items[0]) && LegalItems(items[1..])
  }

  ghost predicate LegalEntries(entries: seq<Entry>)
    decreases entries, 3
  {
    entries != [] ==> LegalEntry(entries[0]) && LegalEntries(entries[1..])
  }

  ghost function Value(c: Spelling): Json
    requires Legal(c)
    decreases c, 0
  {
    match c
    case NullWord => Null
    case TrueWord => Boolean(true)
    case FalseWord => Boolean(false)
    case Figure(_, x) => Number(x)
    case Characters(chars) => String(Lit.ValueOf(chars))
    case List(_, items) => Array(ItemValues(items))
    case Record(_, entries) => Object(EntryValues(entries))
  }

  ghost function SpacedValue(e: Spaced): Json
    requires LegalSpaced(e)
    decreases e, 1
  {
    Value(e.spelling)
  }

  ghost function EntryValue(e: Entry): Member
    requires LegalEntry(e)
    decreases e, 2
  {
    Member(Lit.ValueOf(e.key), SpacedValue(e.value))
  }

  ghost function ItemValues(items: seq<Spaced>): (r: seq<Json>)
    requires LegalItems(items)
    ensures |r| == |items|
    decreases items, 3
  {
    if items == [] then [] else [SpacedValue(items[0])] + ItemValues(items[1..])
  }

  ghost function EntryValues(entries: seq<Entry>): (r: seq<Member>)
    requires LegalEntries(entries)
    ensures |r| == |entries|
    decreases entries, 3
  {
    if entries == [] then [] else [EntryValue(entries[0])] + EntryValues(entries[1..])
  }

  // ----- white space and the starts of tokens -----

  lemma SkipWhite(s: bytes, p: nat, blank: bytes)
    requires At(s, p, blank) && White(blank) && !IsSpace(Peek(s, p + |blank|))
    ensures SkipSpaces(s, p) == p + |blank|
  {
    forall i | p <= i < p + |blank|
      ensures IsSpace(s[i])
    {
      AtIndex(s, p, blank, i - p);
    }
    SkipSpacesOver(s, p, p + |blank|);
  }

  /** The first byte of a text that stands somewhere. */
  lemma AtHead(s: bytes, p: nat, c: byte, t: bytes)
    requires At(s, p, [c] + t)
    ensures p < |s| && s[p] == c && At(s, p + 1, t)
  {
    AtConcat(s, p, [c], t);
    AtIndex(s, p, [c], 0);
  }

  lemma AtFits(s: bytes, p: nat, t: bytes)
    requires At(s, p, t)
    ensures p + |t| <= |s|
  {
  }

  /** White space, and a character that is none. */
  lemma SkipTo(s: bytes, p: nat, blank: bytes, c: byte, t: bytes)
    requires At(s, p, blank + ([c] + t)) && White(blank) && !IsSpace(c)
    ensures var q := p + |blank|;
            q < |s| && s[q] == c && SkipSpaces(s, p) == q && At(s, q, [c] + t) && At(s, q + 1, t)
  {
    AtConcat(s, p, blank, [c] + t);
    AtHead(s, p + |blank|, c, t);
    SkipWhite(s, p, blank);
  }

  /** The first character of a spelling is that of its kind. */
  predicate Starts(c: Spelling, x: byte) {
    match c
    case NullWord => x == Byte('n')
    case TrueWord => x == Byte('t')
    case FalseWord => x == Byte('f')
    case Figure(_, _) => x == Byte('-') || Byte('0') <= x <= Byte('9')
    case Characters(_) => x == Byte('"')
    case List(_, _) => x == Byte('[')
    case Record(_, _) => x == Byte('{')
  }

  lemma NumeralStart(n: Num.Numeral)
    requires n.Taken()
    ensures n.Text() != [] && (n.Text()[0] == Byte('-') || Byte('0') <= n.Text()[0] <= Byte('9'))
  {
    Num.SignInFront(n);
    if !n.minus {
      assert n.Unsigned()[0] == n.whole[0];
    }
  }

  lemma SpellingStart(c: Spelling)
    requires Legal(c)
    ensures Text(c) != [] && Starts(c, Text(c)[0]) && !IsSpace(Text(c)[0])
  {
    if c.Figure? {
      NumeralStart(c.numeral);
    }
  }

  // ----- every spelling is read as its value -----

  /** What the reader makes of a value whose spelling ends at `end`: nothing where a name or the nesting is wrong. */
  ghost function Reading(v: Json, nesting: nat, end: nat): Option<(Json, nat)> {
    if WellFormed(v, nesting) then Some((v, end)) else None
  }

  ghost predicate AllWellFormed(items: seq<Json>, nesting: nat) {
    forall i | 0 <= i < |items| :: WellFormed(items[i], nesting)
  }

  /** How `parse_value` dispatches on the character that it finds behind white space. */
  lemma Dispatch(s: bytes, p: nat, q: nat, nesting: nat)
    requires p <= |s| && q < |s| && SkipSpaces(s, p) == q && nesting <= MAX_NESTING
    ensures s[q] == Byte('{') ==> ParseValue(s, p, nesting) == ParseObject(s, q, nesting + 1)
    ensures s[q] == Byte('[') ==> ParseValue(s, p, nesting) == ParseArray(s, q, nesting + 1)
    ensures s[q] == Byte('"') && QuotedString(s, q).Some? ==>
              ParseValue(s, p, nesting) == Some((String(QuotedString(s, q).value.0), QuotedString(s, q).value.1))
    ensures (s[q] == Byte('-') || Byte('0') <= s[q] <= Byte('9')) && ParseNumber(s, q).Some? ==>
              ParseValue(s, p, nesting) == Some((Number(ParseNumber(s, q).value.0), ParseNumber(s, q).value.1))
    ensures s[q] == Byte('n') ==> ParseValue(s, p, nesting) == ParseNull(s, q)
    ensures s[q] == Byte('t') || s[q] == Byte('f') ==> ParseValue(s, p, nesting) == ParseBoolean(s, q)
  {
  }

  lemma TooDeep(s: bytes, p: nat, nesting: nat, v: Json)
    requires p <= |s| && nesting > MAX_NESTING
    ensures ParseValue(s, p, nesting) == None && !WellFormed(v, nesting)
  {
  }

  lemma WordIsRead(s: bytes, q: nat, c: Spelling)
    requires c.NullWord? || c.TrueWord? || c.FalseWord?
    requires At(s, q, Text(c))
    ensures q <= |s|
    ensures c.NullWord? ==> ParseNull(s, q) == Some((Value(c), q + |Text(c)|))
    ensures !c.NullWord? ==> ParseBoolean(s, q) == Some((Value(c), q + |Text(c)|))
  {
    assert s[q..][..|Text(c)|] == s[q..q + |Text(c)|];
    AtIndex(s, q, Text(c), 0);
    assert Text(TrueWord) == JsonPrint.TRUE_TEXT && Text(FalseWord) == JsonPrint.FALSE_TEXT;
    assert Text(NullWord) == JsonPrint.NULL_TEXT;
  }

  lemma ScalarIsRead(s: bytes, p: nat, q: nat, c: Spelling, nesting: nat)
    requires Legal(c) && !c.List? && !c.Record? && nesting <= MAX_NESTING
    requires p <= |s| && SkipSpaces(s, p) == q && At(s, q, Text(c))
    requires c.Figure? ==> Num.Ends(Peek(s, q + |Text(c)|))
    ensures ParseValue(s, p, nesting) == Some((Value(c), q + |Text(c)|))
  {
    StartAt(s, q, c);
    hide SkipSpaces, ParseValue, QuotedString, ParseNumber, ParseNull, ParseBoolean, At, Lit.Literal, Lit.ValueOf;
    Dispatch(s, p, q, nesting);
    match c
    case Figure(n, x) => Num.NumeralIsRead(s, q, n, x);
    case Characters(chars) => Lit.LiteralIsRead(s, q, chars);
    case _ => WordIsRead(s, q, c);
  }

  lemma ScalarIsWellFormed(c: Spelling, nesting: nat)
    requires Legal(c) && !c.List? && !c.Record?
    ensures WellFormed(Value(c), nesting) <==> nesting <= MAX_NESTING
  {
  }

  predicate Delimiter(x: byte) {
    x == Byte(',') || x == Byte(']') || x == Byte('}')
  }

  lemma WhiteEnds(s: bytes, f: nat, blank: bytes)
    requires At(s, f, blank) && White(blank) && Delimiter(Peek(s, f + |blank|))
    ensures f <= |s| && Num.Ends(Peek(s, f)) && SkipSpaces(s, f) == f + |blank|
  {
    SkipWhite(s, f, blank);
    if blank != [] {
      AtIndex(s, f, blank, 0);
    }
  }

  // ----- lists -----

  lemma ListText(blank: bytes, items: seq<Spaced>)
    ensures items == [] ==> Text(List(blank, items)) == [Byte('[')] + (blank + [Byte(']')])
    ensures items != [] ==> Text(List(blank, items)) == [Byte('[')] + ItemsText(items)
  {
  }

  /** What stands behind the first item. */
  function ItemsTail(items: seq<Spaced>): bytes
    requires items != []
  {
    if |items| == 1 then [Byte(']')] else [Byte(',')] + ItemsText(items[1..])
  }

  lemma SplitItems(items: seq<Spaced>)
    requires items != []
    ensures ItemsText(items) == SpacedText(items[0]) + ItemsTail(items)
    ensures |items| == 1 ==> ItemsTail(items) == [Byte(']')] + []
    ensures |items| > 1 ==> ItemsTail(items) == [Byte(',')] + ItemsText(items[1..])
  {
    hide SpacedText;
  }

  lemma LegalFirst(items: seq<Spaced>)
    requires items != [] && LegalItems(items)
    ensures LegalSpaced(items[0]) && LegalItems(items[1..])
  {
  }

  lemma FirstItem(s: bytes, p: nat, items: seq<Spaced>)
    requires items != [] && LegalItems(items) && At(s, p, ItemsText(items))
    ensures LegalSpaced(items[0]) && LegalItems(items[1..])
    ensures var q := p + |SpacedText(items[0])|;
            && At(s, p, SpacedText(items[0])) && q < |s|
            && (|items| == 1 ==> s[q] == Byte(']') && q + 1 == p + |ItemsText(items)|)
            && (|items| > 1 ==> s[q] == Byte(',') && At(s, q + 1, ItemsText(items[1..]))
                                && q + 1 + |ItemsText(items[1..])| == p + |ItemsText(items)|)
  {
    hide *;
    LegalFirst(items);
    SplitItems(items);
    var text, tail := SpacedText(items[0]), ItemsTail(items);
    AtConcat(s, p, text, tail);
    if |items| == 1 {
      AtHead(s, p + |text|, Byte(']'), []);
    } else {
      AtHead(s, p + |text|, Byte(','), ItemsText(items[1..]));
    }
  }

  lemma FirstItemValue(items: seq<Spaced>, nesting: nat)
    requires items != [] && LegalItems(items)
    ensures LegalSpaced(items[0]) && LegalItems(items[1..])
    ensures ItemValues(items) == [SpacedValue(items[0])] + ItemValues(items[1..])
    ensures AllWellFormed(ItemValues(items), nesting)
       <==> WellFormed(SpacedValue(items[0]), nesting) && AllWellFormed(ItemValues(items[1..]), nesting)
  {
    var v, rest := SpacedValue(items[0]), ItemValues(items[1..]);
    assert ItemValues(items) == [v] + rest;
    FirstWellFormed(v, rest, nesting);
  }

  lemma FirstWellFormed(v: Json, rest: seq<Json>, nesting: nat)
    ensures AllWellFormed([v] + rest, nesting) <==> WellFormed(v, nesting) && AllWellFormed(rest, nesting)
  {
    hide WellFormed;
    var all := [v] + rest;
    assert all[0] == v && forall i | 0 <= i < |rest| :: all[i + 1] == rest[i];
    assert forall i | 1 <= i < |all| :: all[i] == rest[i - 1];
  }

  lemma NoValues(nesting: nat)
    ensures ItemValues([]) == [] && EntryValues([]) == [] && AllWellFormed([], nesting)
  {
  }

  ghost function ListReading(acc: seq<Json>, values: seq<Json>, nesting: nat, end: nat): Option<(Json, nat)> {
    if AllWellFormed(values, nesting) then Some((Array(acc + values), end)) else None
  }

  lemma SpacedTextIs(e: Spaced)
    ensures SpacedText(e) == e.before + (Text(e.spelling) + e.behind)
  {
  }

  lemma SpacedParts(s: bytes, p: nat, e: Spaced)
    requires At(s, p, SpacedText(e))
    ensures var q := p + |e.before|;
            var f := q + |Text(e.spelling)|;
            && At(s, p, e.before) && At(s, q, Text(e.spelling)) && At(s, f, e.behind)
            && At(s, p, e.before + Text(e.spelling)) && f + |e.behind| == p + |SpacedText(e)|
  {
    hide *;
    var text := Text(e.spelling);
    SpacedTextIs(e);
    AtConcat(s, p, e.before, text + e.behind);
    AtConcat(s, p + |e.before|, text, e.behind);
    AtConcat(s, p, e.before, text);
  }

  lemma StartAt(s: bytes, q: nat, c: Spelling)
    requires Legal(c) && At(s, q, Text(c))
    ensures Text(c) != [] && q + |Text(c)| <= |s| && Starts(c, s[q]) && !IsSpace(Peek(s, q))
  {
    SpellingStart(c);
    AtIndex(s, q, Text(c), 0);
    AtFits(s, q, Text(c));
  }

  /** Where the value between its white space is, as the reader's cursor meets it. */
  lemma SpacedAt(s: bytes, p: nat, e: Spaced)
    requires LegalSpaced(e) && At(s, p, SpacedText(e)) && Delimiter(Peek(s, p + |SpacedText(e)|))
    ensures var q := p + |e.before|;
            var f := q + |Text(e.spelling)|;
            && q < f <= |s| && SkipSpaces(s, p) == q && At(s, p, e.before + Text(e.spelling))
            && Num.Ends(Peek(s, f)) && SkipSpaces(s, f) == p + |SpacedText(e)|
            && Starts(e.spelling, s[q])
  {
    hide *;
    SpacedMeans(e);
    SpacedParts(s, p, e);
    StartAt(s, p + |e.before|, e.spelling);
    SkipWhite(s, p, e.before);
    WhiteEnds(s, p + |e.before| + |Text(e.spelling)|, e.behind);
  }

  lemma {:induction false} SpacedIsRead(s: bytes, p: nat, e: Spaced, nesting: nat)
    requires LegalSpaced(e) && At(s, p, SpacedText(e)) && Delimiter(Peek(s, p + |SpacedText(e)|))
    ensures var f := p + |e.before| + |Text(e.spelling)|;
            && p <= |s| && f <= |s| && SkipSpaces(s, f) == p + |SpacedText(e)|
            && ParseValue(s, p, nesting) == Reading(SpacedValue(e), nesting, f)
            && SkipSpaces(s, p) <= |s|
            && ParseValue(s, SkipSpaces(s, p), nesting) == Reading(SpacedValue(e), nesting, f)
    decreases e, 1
  {
    hide *;
    SpacedAt(s, p, e);
    SpacedMeans(e);
    SpelledIsRead(s, p, e.before, e.spelling, nesting);
    SkipAgain(s, p, nesting);
  }

  lemma SpacedMeans(e: Spaced)
    requires LegalSpaced(e)
    ensures White(e.before) && Legal(e.spelling) && White(e.behind) && SpacedValue(e) == Value(e.spelling)
  {
  }

  /** The reader skips white space itself, so a cursor behind it serves as well. */
  lemma SkipAgain(s: bytes, p: nat, nesting: nat)
    requires p <= |s|
    ensures ParseValue(s, SkipSpaces(s, p), nesting) == ParseValue(s, p, nesting)
  {
    hide ParseObject, ParseArray, ParseNumber, QuotedString, ParseNull, ParseBoolean;
    SkipSpacesOver(s, SkipSpaces(s, p), SkipSpaces(s, p));
  }

  lemma ItemsRoundReads(s: bytes, p: nat, nesting: nat, acc: seq<Json>, v: Json, e: nat)
    requires p <= |s| && e <= |s| && ParseValue(s, p, nesting) == Reading(v, nesting, e)
    ensures !WellFormed(v, nesting) ==> ParseItems(s, p, nesting, acc) == None
    ensures WellFormed(v, nesting) ==>
              var f := SkipSpaces(s, e);
              && (Peek(s, f) == Byte(',') ==>
                    ParseItems(s, p, nesting, acc) == ParseItems(s, SkipSpaces(s, f + 1), nesting, acc + [v]))
              && (Peek(s, f) == Byte(']') ==> ParseItems(s, p, nesting, acc) == Some((Array(acc + [v]), f + 1)))
  {
    hide ParseValue, SkipSpaces, WellFormed, ParseItems;
    ItemsRound(s, p, nesting, acc);
  }

  lemma {:induction false} ItemsAreRead(s: bytes, p: nat, items: seq<Spaced>, nesting: nat, acc: seq<Json>)
    requires items != [] && LegalItems(items) && At(s, p, ItemsText(items))
    ensures p <= |s|
    ensures ParseItems(s, SkipSpaces(s, p), nesting, acc)
         == ListReading(acc, ItemValues(items), nesting, p + |ItemsText(items)|)
    decreases items, 3
  {
    hide *;
    FirstItem(s, p, items);
    FirstItemValue(items, nesting);
    var e, q := items[0], p + |SpacedText(items[0])|;
    DelimiterAt(s, q);
    SpacedIsRead(s, p, e, nesting);
    var v, rest := SpacedValue(e), ItemValues(items[1..]);
    ItemsRoundReads(s, SkipSpaces(s, p), nesting, acc, v, p + |e.before| + |Text(e.spelling)|);
    if |items| == 1 {
      NoValues(nesting);
      assert items[1..] == [] && acc + [v] == acc + ([v] + []);
      ListReadingIs(acc, ItemValues(items), nesting, q + 1);
    } else {
      ItemsAreRead(s, q + 1, items[1..], nesting, acc + [v]);
      assert acc + [v] + rest == acc + ([v] + rest);
      ListReadingIs(acc, ItemValues(items), nesting, p + |ItemsText(items)|);
      ListReadingIs(acc + [v], rest, nesting, p + |ItemsText(items)|);
    }
  }

  lemma DelimiterAt(s: bytes, q: nat)
    requires q < |s| && (s[q] == Byte(',') || s[q] == Byte(']') || s[q] == Byte('}'))
    ensures Delimiter(Peek(s, q)) && Peek(s, q) == s[q]
  {
  }

  lemma ListReadingIs(acc: seq<Json>, values: seq<Json>, nesting: nat, end: nat)
    ensures ListReading(acc, values, nesting, end)
         == if AllWellFormed(values, nesting) then Some((Array(acc + values), end)) else None
  {
  }

  // ----- records -----

  lemma RecordText(blank: bytes, entries: seq<Entry>)
    ensures entries == [] ==> Text(Record(blank, entries)) == [Byte('{')] + (blank + [Byte('}')])
    ensures entries != [] ==> Text(Record(blank, entries)) == [Byte('{')] + EntriesText(entries)
  {
  }

  function EntriesTail(entries: seq<Entry>): bytes
    requires entries != []
  {
    if |entries| == 1 then [Byte('}')] else [Byte(',')] + EntriesText(entries[1..])
  }

  lemma SplitEntries(entries: seq<Entry>)
    requires entries != []
    ensures EntriesText(entries) == EntryText(entries[0]) + EntriesTail(entries)
    ensures |entries| == 1 ==> EntriesTail(entries) == [Byte('}')] + []
    ensures |entries| > 1 ==> EntriesTail(entries) == [Byte(',')] + EntriesText(entries[1..])
  {
    hide EntryText;
  }

  lemma FirstEntry(s: bytes, p: nat, entries: seq<Entry>)
    requires entries != [] && LegalEntries(entries) && At(s, p, EntriesText(entries))
    ensures LegalEntry(entries[0]) && LegalEntries(entries[1..])
    ensures var q := p + |EntryText(entries[0])|;
            && At(s, p, EntryText(entries[0])) && q < |s|
            && (|entries| == 1 ==> s[q] == Byte('}') && q + 1 == p + |EntriesText(entries)|)
            && (|entries| > 1 ==> s[q] == Byte(',') && At(s, q + 1, EntriesText(entries[1..]))
                                  && q + 1 + |EntriesText(entries[1..])| == p + |EntriesText(entries)|)
  {
    hide *;
    FirstEntryValue(entries);
    SplitEntries(entries);
    var text, tail := EntryText(entries[0]), EntriesTail(entries);
    AtConcat(s, p, text, tail);
    if |entries| == 1 {
      AtHead(s, p + |text|, Byte('}'), []);
    } else {
      AtHead(s, p + |text|, Byte(','), EntriesText(entries[1..]));
    }
  }

  lemma FirstEntryValue(entries: seq<Entry>)
    requires entries != [] && LegalEntries(entries)
    ensures LegalEntry(entries[0]) && LegalEntries(entries[1..])
    ensures EntryValues(entries) == [EntryValue(entries[0])] + EntryValues(entries[1..])
  {
  }

  /** What the loop over members, with `acc` read already, makes of further ones. */
  ghost function RecordReading(acc: seq<Member>, members: seq<Member>, nesting: nat, end: nat): Option<(Json, nat)> {
    if WellFormedMembers(acc + members, nesting) then Some((Object(acc + members), end)) else None
  }

  lemma EntryTextIs(e: Entry)
    ensures EntryText(e) == e.before + (Lit.Literal(e.key) + (e.behindKey + ([Byte(':')] + SpacedText(e.value))))
  {
    hide Lit.Literal, SpacedText;
  }

  /** The key between its white space, and the value behind the colon. */
  lemma EntryParts(s: bytes, p: nat, e: Entry)
    requires LegalEntry(e) && At(s, p, EntryText(e))
    ensures var q := p + |e.before|;
            var k := q + |Lit.Literal(e.key)|;
            var c := k + |e.behindKey|;
            && At(s, p, e.before) && At(s, q, Lit.Literal(e.key)) && At(s, k, e.behindKey)
            && c < |s| && s[c] == Byte(':') && At(s, c + 1, SpacedText(e.value))
            && c + 1 + |SpacedText(e.value)| == p + |EntryText(e)|
  {
    hide *;
    var key, rest := Lit.Literal(e.key), [Byte(':')] + SpacedText(e.value);
    EntryTextIs(e);
    AtConcat(s, p, e.before, key + (e.behindKey + rest));
    AtConcat(s, p + |e.before|, key, e.behindKey + rest);
    AtConcat(s, p + |e.before| + |key|, e.behindKey, rest);
    AtHead(s, p + |e.before| + |key| + |e.behindKey|, Byte(':'), SpacedText(e.value));
  }

  lemma EntryMeans(e: Entry)
    requires LegalEntry(e)
    ensures White(e.before) && Lit.AllLegal(e.key) && White(e.behindKey) && LegalSpaced(e.value)
    ensures EntryValue(e) == Member(Lit.ValueOf(e.key), SpacedValue(e.value))
  {
  }

  lemma ColonIsNoSpace()
    ensures !IsSpace(Byte(':')) && !IsSpace(Byte('"'))
  {
  }

  lemma LiteralStart(s: bytes, q: nat, key: seq<Lit.Char>)
    requires At(s, q, Lit.Literal(key))
    ensures q < |s| && s[q] == Byte('"')
  {
    AtIndex(s, q, Lit.Literal(key), 0);
  }

  /** The reader takes the key and stands in front of the colon. */
  lemma KeyIsRead(s: bytes, p: nat, e: Entry)
    requires LegalEntry(e) && At(s, p, EntryText(e))
    ensures var q := p + |e.before|;
            var k := q + |Lit.Literal(e.key)|;
            var c := k + |e.behindKey|;
            && q < |s| && s[q] == Byte('"') && SkipSpaces(s, p) == q && k <= |s|
            && Lit.AllLegal(e.key) && QuotedString(s, q) == Some((Lit.ValueOf(e.key), k)) && SkipSpaces(s, k) == c
            && c < |s| && s[c] == Byte(':') && At(s, c + 1, SpacedText(e.value))
            && c + 1 + |SpacedText(e.value)| == p + |EntryText(e)|
  {
    hide *;
    EntryParts(s, p, e);
    EntryMeans(e);
    ColonIsNoSpace();
    var q := p + |e.before|;
    var k := q + |Lit.Literal(e.key)|;
    var c := k + |e.behindKey|;
    LiteralStart(s, q, e.key);
    PeekIs(s, q);
    PeekIs(s, c);
    SkipWhite(s, p, e.before);
    Lit.LiteralIsRead(s, q, e.key);
    SkipWhite(s, k, e.behindKey);
    AtFits(s, k, e.behindKey);
  }

  lemma PeekIs(s: bytes, q: nat)
    requires q < |s|
    ensures Peek(s, q) == s[q]
  {
  }

  /** Whether a member can be added to those that were read before it. */
  ghost predicate Fits(acc: seq<Member>, m: Member, nesting: nat) {
    NulFree(m.name) && WellFormed(m.value, nesting) && Find(acc, m.name).None?
  }

  lemma MemberIsRead(s: bytes, q: nat, k: nat, c: nat, f: nat, nesting: nat, acc: seq<Member>, m: Member)
    requires q <= |s| && QuotedString(s, q) == Some((m.name, k)) && k <= |s| && SkipSpaces(s, k) == c
    requires c < |s| && s[c] == Byte(':') && f <= |s| && ParseValue(s, c + 1, nesting) == Reading(m.value, nesting, f)
    ensures ParseMember(s, q, nesting, acc) == if Fits(acc, m, nesting) then Some((acc + [m], f)) else None
  {
    hide QuotedString, ParseValue, SkipSpaces, WellFormed, Find;
  }

  lemma MembersRound(s: bytes, q: nat, nesting: nat, acc: seq<Member>)
    requires q <= |s|
    ensures ParseMember(s, q, nesting, acc) == None ==> ParseMembers(s, q, nesting, acc) == None
    ensures ParseMember(s, q, nesting, acc).Some? ==>
              var (acc', e) := ParseMember(s, q, nesting, acc).value;
              var f := SkipSpaces(s, e);
              && (Peek(s, f) == Byte(',') ==>
                    ParseMembers(s, q, nesting, acc) == ParseMembers(s, SkipSpaces(s, f + 1), nesting, acc'))
              && (Peek(s, f) == Byte('}') ==> ParseMembers(s, q, nesting, acc) == Some((Object(acc'), f + 1)))
  {
    hide ParseMember, SkipSpaces;
  }

  /** Members that go on from a well formed prefix: the next one fits, or none of this is an object. */
  lemma NextFits(acc: seq<Member>, m: Member, rest: seq<Member>, nesting: nat)
    requires WellFormedMembers(acc, nesting)
    ensures Fits(acc, m, nesting) ==> WellFormedMembers(acc + [m], nesting)
    ensures !Fits(acc, m, nesting) ==> !WellFormedMembers(acc + ([m] + rest), nesting)
    ensures acc + [m] + rest == acc + ([m] + rest)
  {
    hide WellFormed, NulFree;
    var all, k := acc + ([m] + rest), |acc|;
    assert all[k] == m && forall i | 0 <= i < k :: all[i] == acc[i];
    assert (acc + [m])[k] == m && forall i | 0 <= i < k :: (acc + [m])[i] == acc[i];
    var found := Find(acc, m.name);
    if found.Some? {
      assert all[found.value].name == all[k].name;
    }
  }

  lemma RecordReadingIs(acc: seq<Member>, members: seq<Member>, nesting: nat, end: nat)
    ensures RecordReading(acc, members, nesting, end)
         == if WellFormedMembers(acc + members, nesting) then Some((Object(acc + members), end)) else None
  {
  }

  lemma {:induction false} EntryIsRead(s: bytes, p: nat, e: Entry, nesting: nat, acc: seq<Member>) returns (f: nat)
    requires LegalEntry(e) && At(s, p, EntryText(e)) && Delimiter(Peek(s, p + |EntryText(e)|))
    ensures p <= |s| && f <= |s| && SkipSpaces(s, f) == p + |EntryText(e)|
    ensures ParseMember(s, SkipSpaces(s, p), nesting, acc)
         == if Fits(acc, EntryValue(e), nesting) then Some((acc + [EntryValue(e)], f)) else None
    decreases e, 2
  {
    hide *;
    KeyIsRead(s, p, e);
    EntryMeans(e);
    var k := p + |e.before| + |Lit.Literal(e.key)|;
    var c := k + |e.behindKey|;
    SpacedIsRead(s, c + 1, e.value, nesting);
    f := c + 1 + |e.value.before| + |Text(e.value.spelling)|;
    MemberIsRead(s, p + |e.before|, k, c, f, nesting, acc, EntryValue(e));
  }

  lemma {:induction false} EntriesAreRead(s: bytes, p: nat, entries: seq<Entry>, nesting: nat, acc: seq<Member>)
    requires entries != [] && LegalEntries(entries) && At(s, p, EntriesText(entries))
    requires WellFormedMembers(acc, nesting)
    ensures p <= |s|
    ensures ParseMembers(s, SkipSpaces(s, p), nesting, acc)
         == RecordReading(acc, EntryValues(entries), nesting, p + |EntriesText(entries)|)
    decreases entries, 3
  {
    hide *;
    FirstEntry(s, p, entries);
    FirstEntryValue(entries);
    var q := p + |EntryText(entries[0])|;
    DelimiterAt(s, q);
    var f := EntryIsRead(s, p, entries[0], nesting, acc);
    var m, rest := EntryValue(entries[0]), EntryValues(entries[1..]);
    var end := p + |EntriesText(entries)|;
    MembersRound(s, SkipSpaces(s, p), nesting, acc);
    NextFits(acc, m, rest, nesting);
    RecordReadingIs(acc, EntryValues(entries), nesting, end);
    if |entries| == 1 {
      NoValues(nesting);
      assert entries[1..] == [] && acc + [m] == acc + ([m] + []);
    } else if Fits(acc, m, nesting) {
      EntriesAreRead(s, q + 1, entries[1..], nesting, acc + [m]);
      RecordReadingIs(acc + [m], rest, nesting, end);
    }
  }

  // ----- whole values -----

  lemma ReadingIs(v: Json, nesting: nat, end: nat)
    ensures Reading(v, nesting, end) == if WellFormed(v, nesting) then Some((v, end)) else None
  {
  }

  lemma NoListReading(nesting: nat, end: nat)
    ensures ItemValues([]) == [] && ListReading([], ItemValues([]), nesting, end) == Some((Array([]), end))
  {
    var none: seq<Json> := [];
    assert none + none == none;
  }

  lemma ListMeans(c: Spelling, nesting: nat, end: nat)
    requires c.List? && Legal(c) && nesting <= MAX_NESTING
    ensures White(c.blank) && LegalItems(c.items)
    ensures Reading(Value(c), nesting, end) == ListReading([], ItemValues(c.items), nesting + 1, end)
  {
    var values := ItemValues(c.items);
    assert Value(c) == Array(values) && [] + values == values;
    hide ItemValues;
    assert WellFormed(Array(values), nesting) <==> AllWellFormed(values, nesting + 1);
  }

  lemma {:induction false} ListIsRead(s: bytes, q: nat, c: Spelling, nesting: nat)
    requires c.List? && Legal(c) && At(s, q, Text(c)) && nesting <= MAX_NESTING
    ensures q < |s| && s[q] == Byte('[') && ParseArray(s, q, nesting + 1) == Reading(Value(c), nesting, q + |Text(c)|)
    decreases c, 0
  {
    hide *;
    ListText(c.blank, c.items);
    ListMeans(c, nesting, q + |Text(c)|);
    if c.items == [] {
      AtHead(s, q, Byte('['), c.blank + [Byte(']')]);
      EmptyListIsRead(s, q, c.blank, nesting + 1);
      NoListReading(nesting + 1, q + |Text(c)|);
    } else {
      AtHead(s, q, Byte('['), ItemsText(c.items));
      ItemsAreRead(s, q + 1, c.items, nesting + 1, []);
      FirstItemStart(s, q + 1, c.items);
      ArrayIsItems(s, q, nesting + 1);
    }
  }

  lemma EmptyListIsRead(s: bytes, q: nat, blank: bytes, nesting: nat)
    requires q < |s| && s[q] == Byte('[') && White(blank) && At(s, q + 1, blank + [Byte(']')])
    ensures ParseArray(s, q, nesting) == Some((Array([]), q + |blank| + 2))
  {
    assert [Byte(']')] + [] == [Byte(']')];
    SkipTo(s, q + 1, blank, Byte(']'), []);
    hide SkipSpaces, ParseItems;
  }

  lemma FirstItemStart(s: bytes, p: nat, items: seq<Spaced>)
    requires items != [] && LegalItems(items) && At(s, p, ItemsText(items))
    ensures p <= |s| && SkipSpaces(s, p) < |s| && s[SkipSpaces(s, p)] != Byte(']')
  {
    hide *;
    FirstItem(s, p, items);
    DelimiterAt(s, p + |SpacedText(items[0])|);
    SpacedAt(s, p, items[0]);
    NoSpellingStartsSo(items[0].spelling);
  }

  lemma NoSpellingStartsSo(c: Spelling)
    ensures !Starts(c, Byte(']')) && !Starts(c, Byte('}'))
  {
  }

  lemma ArrayIsItems(s: bytes, q: nat, nesting: nat)
    requires q < |s| && s[q] == Byte('[') && SkipSpaces(s, q + 1) < |s| && s[SkipSpaces(s, q + 1)] != Byte(']')
    ensures ParseArray(s, q, nesting) == ParseItems(s, SkipSpaces(s, q + 1), nesting, [])
  {
    hide SkipSpaces, ParseItems;
  }

  lemma NoRecordReading(nesting: nat, end: nat)
    ensures EntryValues([]) == [] && RecordReading([], EntryValues([]), nesting, end) == Some((Object([]), end))
  {
    var none: seq<Member> := [];
    assert none + none == none;
  }

  lemma RecordMeans(c: Spelling, nesting: nat, end: nat)
    requires c.Record? && Legal(c) && nesting <= MAX_NESTING
    ensures White(c.blank) && LegalEntries(c.entries) && WellFormedMembers([], nesting + 1)
    ensures Reading(Value(c), nesting, end) == RecordReading([], EntryValues(c.entries), nesting + 1, end)
  {
    var members := EntryValues(c.entries);
    assert Value(c) == Object(members) && [] + members == members;
    hide EntryValues;
    assert WellFormed(Object(members), nesting) <==> WellFormedMembers(members, nesting + 1);
  }

  lemma {:induction false} RecordIsRead(s: bytes, q: nat, c: Spelling, nesting: nat)
    requires c.Record? && Legal(c) && At(s, q, Text(c)) && nesting <= MAX_NESTING
    ensures q < |s| && s[q] == Byte('{') && ParseObject(s, q, nesting + 1) == Reading(Value(c), nesting, q + |Text(c)|)
    decreases c, 0
  {
    hide *;
    RecordText(c.blank, c.entries);
    RecordMeans(c, nesting, q + |Text(c)|);
    if c.entries == [] {
      AtHead(s, q, Byte('{'), c.blank + [Byte('}')]);
      EmptyRecordIsRead(s, q, c.blank, nesting + 1);
      NoRecordReading(nesting + 1, q + |Text(c)|);
    } else {
      AtHead(s, q, Byte('{'), EntriesText(c.entries));
      EntriesAreRead(s, q + 1, c.entries, nesting + 1, []);
      FirstEntryStart(s, q + 1, c.entries);
      ObjectIsMembers(s, q, nesting + 1);
    }
  }

  lemma EmptyRecordIsRead(s: bytes, q: nat, blank: bytes, nesting: nat)
    requires q < |s| && s[q] == Byte('{') && White(blank) && At(s, q + 1, blank + [Byte('}')])
    ensures ParseObject(s, q, nesting) == Some((Object([]), q + |blank| + 2))
  {
    assert [Byte('}')] + [] == [Byte('}')];
    SkipTo(s, q + 1, blank, Byte('}'), []);
    hide SkipSpaces, ParseMembers;
  }

  lemma FirstEntryStart(s: bytes, p: nat, entries: seq<Entry>)
    requires entries != [] && LegalEntries(entries) && At(s, p, EntriesText(entries))
    ensures p <= |s| && SkipSpaces(s, p) < |s| && s[SkipSpaces(s, p)] != Byte('}')
  {
    hide *;
    FirstEntry(s, p, entries);
    KeyIsRead(s, p, entries[0]);
    QuoteIsNoBrace();
  }

  lemma QuoteIsNoBrace()
    ensures Byte('"') != Byte('}')
  {
  }

  lemma ObjectIsMembers(s: bytes, q: nat, nesting: nat)
    requires q < |s| && s[q] == Byte('{') && SkipSpaces(s, q + 1) < |s| && s[SkipSpaces(s, q + 1)] != Byte('}')
    ensures ParseObject(s, q, nesting) == ParseMembers(s, SkipSpaces(s, q + 1), nesting, [])
  {
    hide SkipSpaces, ParseMembers;
  }

  /**
   Every spelling, behind white space and whatever follows, is read as the value that it
   spells, to its end; and it is refused exactly where that value has a name twice, a NUL
   in a name, or a part inside too many containers.
   */
  lemma {:induction false} SpelledIsRead(s: bytes, p: nat, blank: bytes, c: Spelling, nesting: nat)
    requires White(blank) && Legal(c) && At(s, p, blank + Text(c))
    requires c.Figure? ==> Num.Ends(Peek(s, p + |blank| + |Text(c)|))
    ensures p <= |s|
    ensures ParseValue(s, p, nesting) == Reading(Value(c), nesting, p + |blank| + |Text(c)|)
    decreases c, 1
  {
    hide *;
    var q, end := p + |blank|, p + |blank| + |Text(c)|;
    AtConcat(s, p, blank, Text(c));
    StartAt(s, q, c);
    SkipWhite(s, p, blank);
    ReadingIs(Value(c), nesting, end);
    if nesting > MAX_NESTING {
      TooDeep(s, p, nesting, Value(c));
    } else {
      Dispatch(s, p, q, nesting);
      match c
      case List(_, _) => ListIsRead(s, q, c, nesting);
      case Record(_, _) => RecordIsRead(s, q, c, nesting);
      case _ =>
        ScalarIsRead(s, p, q, c, nesting);
        ScalarIsWellFormed(c, nesting);
    }
  }

  // ----- and whatever is read is such a spelling -----

  lemma WhiteFound(s: bytes, p: nat)
    requires p <= |s|
    ensures White(s[p..SkipSpaces(s, p)])
  {
  }

  /** What the reader has found where it read a value. */
  lemma ReadFrom(s: bytes, p: nat, nesting: nat)
    requires p <= |s| && ParseValue(s, p, nesting).Some?
    ensures nesting <= MAX_NESTING
    ensures var q, r := SkipSpaces(s, p), ParseValue(s, p, nesting);
            && q < |s|
            && (s[q] == LBRACE ==> ParseObject(s, q, nesting + 1) == r)
            && (s[q] == LBRACKET ==> ParseArray(s, q, nesting + 1) == r)
            && (s[q] == QUOTE ==>
                  QuotedString(s, q).Some?
                  && r.value == (String(QuotedString(s, q).value.0), QuotedString(s, q).value.1))
            && (s[q] == MINUS || IsDigit(s[q]) ==>
                  ParseNumber(s, q).Some?
                  && r.value == (Number(ParseNumber(s, q).value.0), ParseNumber(s, q).value.1))
            && (s[q] != LBRACE && s[q] != LBRACKET && s[q] != QUOTE && s[q] != MINUS && !IsDigit(s[q]) ==>
                  ParseNull(s, q) == r || ParseBoolean(s, q) == r)
  {
    hide SkipSpaces, ParseObject, ParseArray, QuotedString, ParseNumber, ParseNull, ParseBoolean;
  }

  /** The one value that is read without a character: a minus that no number follows. */
  lemma NothingTaken(s: bytes, p: nat, nesting: nat)
    requires p <= |s| && ParseValue(s, p, nesting).Some?
    ensures SkipSpaces(s, p) <= ParseValue(s, p, nesting).value.1 <= |s|
    ensures ParseValue(s, p, nesting).value.1 == SkipSpaces(s, p) ==>
              var q := SkipSpaces(s, p);
              q < |s| && s[q] == Byte('-') && SkipSpaces(s, q) == q && ParseValue(s, p, nesting).value.0 == Number(0.0)
  {
    hide SkipSpaces, ParseObject, ParseArray, QuotedString, ParseNumber, ParseNull, ParseBoolean, ParseValue;
    ReadFrom(s, p, nesting);
    var q := SkipSpaces(s, p);
    if s[q] == MINUS || IsDigit(s[q]) {
      NumberEnds(s, q);
    }
    SkipSpacesOver(s, q, q);
  }

  lemma NumberEnds(s: bytes, q: nat)
    requires q < |s| && (s[q] == MINUS || IsDigit(s[q])) && ParseNumber(s, q).Some?
    ensures q <= ParseNumber(s, q).value.1
    ensures ParseNumber(s, q).value.1 == q ==> s[q] == MINUS && ParseNumber(s, q).value.0 == 0.0
  {
    hide Decimal;
    if s[q] != MINUS {
      DigitIsTaken(s, q);
    }
  }

  lemma DigitIsTaken(s: bytes, q: nat)
    requires q < |s| && IsDigit(s[q])
    ensures Decimal(s, q).Some?
  {
    assert DigitsEnd(s, q) > q;
    hide Scale, DigitsValue, ExponentValue, ExponentEnd;
  }

  lemma Slices(s: bytes, a: nat, b: nat, c: nat)
    requires a <= b <= c <= |s|
    ensures s[a..b] + s[b..c] == s[a..c]
  {
  }

  lemma SliceHead(s: bytes, a: nat, c: nat)
    requires a < c <= |s|
    ensures s[a..c] == [s[a]] + s[a + 1..c]
  {
  }

  lemma SliceLast(s: bytes, a: nat)
    requires a < |s|
    ensures s[a..a + 1] == [s[a]]
  {
  }

  lemma TokenIs(s: bytes, q: nat, token: bytes)
    requires q <= |s| && Token(s, q, token)
    ensures q + |token| <= |s| && s[q..q + |token|] == token
  {
    assert s[q..][..|token|] == s[q..q + |token|];
  }

  lemma WordFound(s: bytes, q: nat, r: Option<(Json, nat)>) returns (c: Spelling)
    requires q <= |s| && r.Some? && (ParseNull(s, q) == r || ParseBoolean(s, q) == r)
    ensures Legal(c) && Value(c) == r.value.0 && q <= r.value.1 <= |s| && Text(c) == s[q..r.value.1]
  {
    c := if r.value.0.Null? then NullWord else if r.value.0 == Boolean(true) then TrueWord else FalseWord;
    assert Text(TrueWord) == JsonPrint.TRUE_TEXT && Text(FalseWord) == JsonPrint.FALSE_TEXT;
    assert Text(NullWord) == JsonPrint.NULL_TEXT;
    TokenIs(s, q, Text(c));
  }

  lemma FigureFound(s: bytes, q: nat) returns (c: Spelling)
    requires q < |s| && (s[q] == MINUS || IsDigit(s[q])) && ParseNumber(s, q).Some? && ParseNumber(s, q).value.1 > q
    ensures Legal(c) && Value(c) == Number(ParseNumber(s, q).value.0)
    ensures Text(c) == s[q..ParseNumber(s, q).value.1]
  {
    hide ParseNumber;
    var n := Num.ReadIsNumeral(s, q);
    c := Figure(n, ParseNumber(s, q).value.0);
  }

  lemma CharactersFound(s: bytes, q: nat) returns (c: Spelling)
    requires q <= |s| && QuotedString(s, q).Some?
    ensures Legal(c) && Value(c) == String(QuotedString(s, q).value.0)
    ensures Text(c) == s[q..QuotedString(s, q).value.1]
  {
    hide QuotedString;
    var chars := Lit.ReadIsLiteral(s, q);
    c := Characters(chars);
  }

  /** Something was read, and more than nothing. */
  ghost predicate Taken(s: bytes, p: nat, nesting: nat)
    requires p <= |s|
  {
    ParseValue(s, p, nesting).Some? && ParseValue(s, p, nesting).value.1 != SkipSpaces(s, p)
  }

  /** What is read, and more than nothing, is a spelling of the value behind white space. */
  lemma {:induction false} ReadIsSpelled(s: bytes, p: nat, nesting: nat) returns (c: Spelling)
    requires p <= |s| && Taken(s, p, nesting)
    ensures Legal(c) && Value(c) == ParseValue(s, p, nesting).value.0
    ensures SkipSpaces(s, p) <= ParseValue(s, p, nesting).value.1
    ensures Text(c) == s[SkipSpaces(s, p)..ParseValue(s, p, nesting).value.1]
    decreases |s| - p, 3
  {
    hide ParseValue, ParseObject, ParseArray, QuotedString, ParseNumber, ParseNull, ParseBoolean, SkipSpaces,
         Legal, Value, Text, IsDigit;
    var q, r := SkipSpaces(s, p), ParseValue(s, p, nesting);
    ReadFrom(s, p, nesting);
    NothingTaken(s, p, nesting);
    if s[q] == LBRACE {
      c := RecordFound(s, q, nesting + 1);
    } else if s[q] == LBRACKET {
      c := ListFound(s, q, nesting + 1);
    } else if s[q] == QUOTE {
      c := CharactersFound(s, q);
    } else if s[q] == MINUS || IsDigit(s[q]) {
      c := FigureFound(s, q);
    } else {
      c := WordFound(s, q, r);
    }
  }

  lemma ListOf(blank: bytes, items: seq<Spaced>)
    requires White(blank) && LegalItems(items)
    ensures Legal(List(blank, items)) && Value(List(blank, items)) == Array(ItemValues(items))
  {
  }

  lemma ArrayFound(s: bytes, q: nat, nesting: nat)
    requires q < |s| && s[q] == LBRACKET
    ensures var k := SkipSpaces(s, q + 1);
            ParseArray(s, q, nesting)
            == if Peek(s, k) == RBRACKET then Some((Array([]), k + 1)) else ParseItems(s, k, nesting, [])
  {
    hide SkipSpaces, ParseItems;
  }

  lemma {:induction false} ListFound(s: bytes, q: nat, nesting: nat) returns (c: Spelling)
    requires q < |s| && s[q] == LBRACKET && ParseArray(s, q, nesting).Some?
    ensures Legal(c) && Value(c) == ParseArray(s, q, nesting).value.0
    ensures q < ParseArray(s, q, nesting).value.1 <= |s| && Text(c) == s[q..ParseArray(s, q, nesting).value.1]
    decreases |s| - q, 1
  {
    hide ParseValue, ParseArray, ParseItems, SkipSpaces, Legal, Value, Text, White, LegalItems, ItemValues, ItemsText;
    ArrayFound(s, q, nesting);
    var k := SkipSpaces(s, q + 1);
    if Peek(s, k) == RBRACKET {
      var blank := s[q + 1..k];
      WhiteFound(s, q + 1);
      NothingInside();
      ListOf(blank, []);
      ListText(blank, []);
      SliceHead(s, q, k + 1);
      Slices(s, q + 1, k, k + 1);
      SliceLast(s, k);
      c := List(blank, []);
    } else {
      var items := ItemsFound(s, q + 1, nesting, []);
      NothingInside();
      ListOf([], items);
      ListText([], items);
      SliceHead(s, q, ParseArray(s, q, nesting).value.1);
      NothingInFront(ItemValues(items));
      c := List([], items);
    }
  }

  lemma NothingInside()
    ensures White([]) && LegalItems([]) && LegalEntries([]) && ItemValues([]) == [] && EntryValues([]) == []
  {
  }

  lemma NothingInFront<T>(values: seq<T>)
    ensures [] + values == values
  {
  }

  /** A value and the white space around it, up to where the reader's cursor stands behind that. */
  lemma {:induction false} SpacedFound(s: bytes, p: nat, nesting: nat) returns (e: Spaced)
    requires p <= |s| && Taken(s, p, nesting)
    ensures LegalSpaced(e) && SpacedValue(e) == ParseValue(s, p, nesting).value.0
    ensures var f := SkipSpaces(s, ParseValue(s, p, nesting).value.1);
            p <= f && SpacedText(e) == s[p..f]
    decreases |s| - p, 4
  {
    hide ParseValue, SkipSpaces, Legal, Value, Text, White;
    var c := ReadIsSpelled(s, p, nesting);
    var q, end := SkipSpaces(s, p), ParseValue(s, p, nesting).value.1;
    var f := SkipSpaces(s, end);
    WhiteFound(s, p);
    WhiteFound(s, end);
    Slices(s, q, end, f);
    Slices(s, p, q, f);
    e := Spaced(s[p..q], c, s[end..f]);
    SpacedOf(e);
    SpacedTextIs(e);
  }

  lemma SpacedOf(e: Spaced)
    requires White(e.before) && Legal(e.spelling) && White(e.behind)
    ensures LegalSpaced(e) && SpacedValue(e) == Value(e.spelling)
  {
  }

  lemma OneItem(e: Spaced)
    requires LegalSpaced(e)
    ensures LegalItems([e]) && ItemValues([e]) == [SpacedValue(e)] && ItemsText([e]) == SpacedText(e) + [Byte(']')]
  {
    assert [e][1..] == [];
  }

  lemma MoreItems(e: Spaced, rest: seq<Spaced>)
    requires LegalSpaced(e) && LegalItems(rest) && rest != []
    ensures var items := [e] + rest;
            && LegalItems(items) && ItemValues(items) == [SpacedValue(e)] + ItemValues(rest)
            && ItemsText(items) == SpacedText(e) + ([Byte(',')] + ItemsText(rest))
  {
    var items := [e] + rest;
    assert items[1..] == rest && |items| > 1;
    hide SpacedText, SpacedValue;
  }

  /** One round of the loop over items that goes on or comes to the end. */
  lemma ItemsWereRead(s: bytes, p: nat, nesting: nat, acc: seq<Json>)
    requires p <= |s| && ParseItems(s, SkipSpaces(s, p), nesting, acc).Some?
    ensures Taken(s, p, nesting)
    ensures var (v, end) := ParseValue(s, p, nesting).value;
            var f := SkipSpaces(s, end);
            && p < f + 1 <= |s|
            && (s[f] == Byte(',') || s[f] == Byte(']'))
            && ParseItems(s, SkipSpaces(s, p), nesting, acc)
               == if s[f] == Byte(',') then ParseItems(s, SkipSpaces(s, f + 1), nesting, acc + [v])
                  else Some((Array(acc + [v]), f + 1))
  {
    hide ParseValue, SkipSpaces;
    SkipAgain(s, p, nesting);
    NothingTaken(s, p, nesting);
  }

  lemma {:induction false} ItemsFound(s: bytes, p: nat, nesting: nat, acc: seq<Json>) returns (items: seq<Spaced>)
    requires p <= |s| && ParseItems(s, SkipSpaces(s, p), nesting, acc).Some?
    ensures items != [] && LegalItems(items)
    ensures var (v, end) := ParseItems(s, SkipSpaces(s, p), nesting, acc).value;
            && v == Array(acc + ItemValues(items)) && p < end <= |s| && ItemsText(items) == s[p..end]
    decreases |s| - p, 5
  {
    hide ParseValue, ParseItems, SkipSpaces, Legal, Value, Text, White, LegalItems, LegalSpaced, ItemValues, ItemsText,
         SpacedText, SpacedValue;
    ItemsWereRead(s, p, nesting, acc);
    var e := SpacedFound(s, p, nesting);
    var (v, end) := ParseValue(s, p, nesting).value;
    var f := SkipSpaces(s, end);
    if s[f] == Byte(']') {
      OneItem(e);
      items := [e];
      SliceLast(s, f);
      Slices(s, p, f, f + 1);
    } else {
      var rest := ItemsFound(s, f + 1, nesting, acc + [v]);
      MoreItems(e, rest);
      items := [e] + rest;
      var last := ParseItems(s, SkipSpaces(s, p), nesting, acc).value.1;
      SliceHead(s, f, last);
      Slices(s, p, f, last);
      assert acc + [v] + ItemValues(rest) == acc + ([v] + ItemValues(rest));
    }
  }

  lemma RecordOf(blank: bytes, entries: seq<Entry>)
    requires White(blank) && LegalEntries(entries)
    ensures Legal(Record(blank, entries)) && Value(Record(blank, entries)) == Object(EntryValues(entries))
  {
  }

  lemma ObjectFound(s: bytes, q: nat, nesting: nat)
    requires q < |s| && s[q] == LBRACE
    ensures var k := SkipSpaces(s, q + 1);
            ParseObject(s, q, nesting)
            == if Peek(s, k) == RBRACE then Some((Object([]), k + 1)) else ParseMembers(s, k, nesting, [])
  {
    hide SkipSpaces, ParseMembers;
  }

  lemma {:induction false} RecordFound(s: bytes, q: nat, nesting: nat) returns (c: Spelling)
    requires q < |s| && s[q] == LBRACE && ParseObject(s, q, nesting).Some?
    ensures Legal(c) && Value(c) == ParseObject(s, q, nesting).value.0
    ensures q < ParseObject(s, q, nesting).value.1 <= |s| && Text(c) == s[q..ParseObject(s, q, nesting).value.1]
    decreases |s| - q, 1
  {
    hide ParseValue, ParseObject, ParseMembers, SkipSpaces, Legal, Value, Text, White, LegalEntries, EntryValues,
         EntriesText;
    ObjectFound(s, q, nesting);
    var k := SkipSpaces(s, q + 1);
    if Peek(s, k) == RBRACE {
      var blank := s[q + 1..k];
      WhiteFound(s, q + 1);
      NothingInside();
      RecordOf(blank, []);
      RecordText(blank, []);
      SliceHead(s, q, k + 1);
      Slices(s, q + 1, k, k + 1);
      SliceLast(s, k);
      c := Record(blank, []);
    } else {
      var entries := EntriesFound(s, q + 1, nesting, []);
      NothingInside();
      RecordOf([], entries);
      RecordText([], entries);
      SliceHead(s, q, ParseObject(s, q, nesting).value.1);
      NothingInFront(EntryValues(entries));
      c := Record([], entries);
    }
  }

  /** A member as the reader found it: its key, the colon at `c`, and its value. */
  lemma MemberWasRead(s: bytes, q: nat, nesting: nat, acc: seq<Member>) returns (c: nat)
    requires q <= |s| && ParseMember(s, q, nesting, acc).Some?
    ensures QuotedString(s, q).Some?
    ensures var (key, k) := QuotedString(s, q).value;
            && q <= k <= |s| && SkipSpaces(s, k) == c < |s| && s[c] == Byte(':') && ParseValue(s, c + 1, nesting).Some?
            && var (v, end) := ParseValue(s, c + 1, nesting).value;
               ParseMember(s, q, nesting, acc) == Some((acc + [Member(key, v)], end))
  {
    hide QuotedString, SkipSpaces, ParseValue;
    c := SkipSpaces(s, QuotedString(s, q).value.1);
  }

  lemma EntryOf(e: Entry)
    requires White(e.before) && Lit.AllLegal(e.key) && White(e.behindKey) && LegalSpaced(e.value)
    ensures LegalEntry(e) && EntryValue(e) == Member(Lit.ValueOf(e.key), SpacedValue(e.value))
  {
  }

  lemma FiveSlices(s: bytes, p: nat, q: nat, k: nat, c: nat, f: nat)
    requires p <= q <= k <= c < f <= |s|
    ensures s[p..q] + (s[q..k] + (s[k..c] + ([s[c]] + s[c + 1..f]))) == s[p..f]
  {
    SliceHead(s, c, f);
    Slices(s, k, c, f);
    Slices(s, q, k, f);
    Slices(s, p, q, f);
  }

  lemma {:induction false} EntryFound(s: bytes, p: nat, nesting: nat, acc: seq<Member>) returns (e: Entry)
    requires p <= |s| && ParseMember(s, SkipSpaces(s, p), nesting, acc).Some?
    requires var end := ParseMember(s, SkipSpaces(s, p), nesting, acc).value.1;
             Peek(s, SkipSpaces(s, end)) != MINUS
    ensures LegalEntry(e)
    ensures var (acc', end) := ParseMember(s, SkipSpaces(s, p), nesting, acc).value;
            acc' == acc + [EntryValue(e)] && p <= SkipSpaces(s, end) && EntryText(e) == s[p..SkipSpaces(s, end)]
    decreases |s| - p, 5
  {
    hide ParseValue, ParseMember, QuotedString, SkipSpaces, Legal, Value, Text, White, LegalSpaced, SpacedText,
         SpacedValue, Lit.Literal, Lit.ValueOf, Lit.AllLegal, LegalEntry, EntryValue, EntryText;
    var q := SkipSpaces(s, p);
    var c := MemberWasRead(s, q, nesting, acc);
    var k := QuotedString(s, q).value.1;
    var end := ParseValue(s, c + 1, nesting).value.1;
    NothingTaken(s, c + 1, nesting);
    var value := SpacedFound(s, c + 1, nesting);
    var key := Lit.ReadIsLiteral(s, q);
    WhiteFound(s, p);
    WhiteFound(s, k);
    e := Entry(s[p..q], key, s[k..c], value);
    EntryOf(e);
    EntryTextIs(e);
    FiveSlices(s, p, q, k, c, SkipSpaces(s, end));
  }

  lemma OneEntry(e: Entry)
    requires LegalEntry(e)
    ensures LegalEntries([e]) && EntryValues([e]) == [EntryValue(e)] && EntriesText([e]) == EntryText(e) + [Byte('}')]
  {
    assert [e][1..] == [];
  }

  lemma MoreEntries(e: Entry, rest: seq<Entry>)
    requires LegalEntry(e) && LegalEntries(rest) && rest != []
    ensures var entries := [e] + rest;
            && LegalEntries(entries) && EntryValues(entries) == [EntryValue(e)] + EntryValues(rest)
            && EntriesText(entries) == EntryText(e) + ([Byte(',')] + EntriesText(rest))
  {
    var entries := [e] + rest;
    assert entries[1..] == rest && |entries| > 1;
    hide EntryText, EntryValue;
  }

  lemma MembersWereRead(s: bytes, q: nat, nesting: nat, acc: seq<Member>)
    requires q <= |s| && ParseMembers(s, q, nesting, acc).Some?
    ensures ParseMember(s, q, nesting, acc).Some?
    ensures var (acc', end) := ParseMember(s, q, nesting, acc).value;
            var f := SkipSpaces(s, end);
            && q < f + 1 <= |s|
            && (s[f] == Byte(',') || s[f] == Byte('}'))
            && ParseMembers(s, q, nesting, acc)
               == if s[f] == Byte(',') then ParseMembers(s, SkipSpaces(s, f + 1), nesting, acc')
                  else Some((Object(acc'), f + 1))
  {
    hide ParseMember, SkipSpaces;
  }

  lemma {:induction false} EntriesFound(s: bytes, p: nat, nesting: nat, acc: seq<Member>) returns (entries: seq<Entry>)
    requires p <= |s| && ParseMembers(s, SkipSpaces(s, p), nesting, acc).Some?
    ensures entries != [] && LegalEntries(entries)
    ensures var (v, end) := ParseMembers(s, SkipSpaces(s, p), nesting, acc).value;
            && v == Object(acc + EntryValues(entries)) && p < end <= |s| && EntriesText(entries) == s[p..end]
    decreases |s| - p, 6
  {
    hide ParseMember, ParseMembers, SkipSpaces, Text, LegalEntries, LegalEntry, EntryValues, EntriesText, EntryText,
         EntryValue;
    MembersWereRead(s, SkipSpaces(s, p), nesting, acc);
    var (acc', end) := ParseMember(s, SkipSpaces(s, p), nesting, acc).value;
    var e := EntryFound(s, p, nesting, acc);
    var f := SkipSpaces(s, end);
    if s[f] == Byte('}') {
      OneEntry(e);
      entries := [e];
      SliceLast(s, f);
      Slices(s, p, f, f + 1);
    } else {
      var rest := EntriesFound(s, f + 1, nesting, acc');
      MoreEntries(e, rest);
      entries := [e] + rest;
      var last := ParseMembers(s, SkipSpaces(s, p), nesting, acc).value.1;
      SliceHead(s, f, last);
      Slices(s, p, f, last);
      assert acc' + EntryValues(rest) == acc + ([EntryValue(e)] + EntryValues(rest));
    }
  }

  // ----- names and nesting, and whole texts -----

  /** No part of the value sits inside more than `k` containers. */
  ghost predicate Within(v: Json, k: nat)
    decreases v
  {
    match v
    case Array(items) => forall i | 0 <= i < |items| :: k > 0 && Within(items[i], k - 1)
    case Object(members) => forall i | 0 <= i < |members| :: k > 0 && Within(members[i].value, k - 1)
    case _ => true
  }

  /** Every object has different names, and none of them holds a NUL. */
  ghost predicate GoodNames(v: Json)
    decreases v
  {
    match v
    case Array(items) => forall i | 0 <= i < |items| :: GoodNames(items[i])
    case Object(members) =>
      && (forall i, j | 0 <= i < j < |members| :: members[i].name != members[j].name)
      && forall i | 0 <= i < |members| :: 0 !in members[i].name && GoodNames(members[i].value)
    case _ => true
  }

  lemma {:induction false} WellFormedIff(v: Json, nesting: nat)
    ensures WellFormed(v, nesting) <==> nesting <= 2048 && Within(v, 2048 - nesting) && GoodNames(v)
    decreases v
  {
    if nesting <= 2048 {
      var k := 2048 - nesting;
      match v
      case Array(items) =>
        forall i | 0 <= i < |items|
          ensures WellFormed(items[i], nesting + 1) <==> k > 0 && Within(items[i], k - 1) && GoodNames(items[i])
        {
          WellFormedIff(items[i], nesting + 1);
        }
        if items != [] {
          assert k == 0 ==> !WellFormed(items[0], nesting + 1);
        }
      case Object(members) =>
        forall i | 0 <= i < |members|
          ensures WellFormed(members[i].value, nesting + 1)
             <==> k > 0 && Within(members[i].value, k - 1) && GoodNames(members[i].value)
        {
          WellFormedIff(members[i].value, nesting + 1);
        }
        NamesWithoutNul(members);
        if members != [] {
          assert k == 0 ==> !WellFormed(members[0].value, nesting + 1);
        }
      case _ =>
    }
  }

  lemma NamesWithoutNul(members: seq<Member>)
    ensures forall i | 0 <= i < |members| :: NulFree(members[i].name) <==> 0 !in members[i].name
  {
  }

  /** A byte order mark may stand in front. */
  predicate Mark(t: bytes) {
    t == [] || t == [0xEF, 0xBB, 0xBF]
  }

  /**
   Every text of the grammar, with a byte order mark or not, is read as the value that it
   spells, whatever follows; it is refused exactly where a name occurs twice or holds a
   NUL, or a part sits inside more than 2048 containers.
   */
  lemma SpelledTextIsRead(mark: bytes, blank: bytes, c: Spelling, rest: bytes)
    requires Mark(mark) && White(blank) && Legal(c)
    requires c.Figure? ==> rest == [] || Num.Ends(rest[0])
    ensures ParseText(mark + (blank + Text(c) + rest))
         == if Within(Value(c), 2048) && GoodNames(Value(c)) then Some(Value(c)) else None
  {
    hide Text, Legal, ParseValue, Value, WellFormed, Within, GoodNames;
    var s := mark + (blank + Text(c) + rest);
    var p, end := |mark|, |mark| + |blank| + |Text(c)|;
    assert s[p..p + |blank + Text(c)|] == blank + Text(c);
    assert rest != [] ==> s[end] == rest[0];
    assert rest == [] ==> end == |s|;
    MarkIsSkipped(mark, blank, c, rest);
    EndOfText();
    SpelledIsRead(s, p, blank, c, 0);
    WellFormedIff(Value(c), 0);
  }

  lemma EndOfText()
    ensures Num.Ends(NUL)
  {
  }

  lemma MarkIsSkipped(mark: bytes, blank: bytes, c: Spelling, rest: bytes)
    requires Mark(mark) && White(blank) && Legal(c)
    ensures SkipByteOrderMark(mark + (blank + Text(c) + rest)) == |mark|
  {
    var t := blank + Text(c) + rest;
    SpellingStart(c);
    hide Text, Legal;
    assert t[0] == if blank == [] then Text(c)[0] else blank[0];
    assert t[0] < 0x80;
    if mark == [] {
      assert mark + t == t;
    } else {
      assert (mark + t)[0] == 0xEF && (mark + t)[1] == 0xBB && (mark + t)[2] == 0xBF;
    }
  }

  /**
   And whatever text is read at all, unless it starts with a minus that no number follows,
   is of the grammar: white space and a spelling of the value, in front of anything.
   */
  lemma ReadTextIsSpelled(s: bytes) returns (mark: bytes, blank: bytes, c: Spelling, rest: bytes)
    requires ParseText(s).Some? && Taken(s, SkipByteOrderMark(s), 0)
    ensures Mark(mark) && White(blank) && Legal(c) && Value(c) == ParseText(s).value
    ensures s == mark + (blank + Text(c) + rest)
    ensures Within(Value(c), 2048) && GoodNames(Value(c))
  {
    hide Text, Legal, ParseValue, Value, WellFormed, Within, GoodNames, White, SkipSpaces;
    var p := SkipByteOrderMark(s);
    c := ReadIsSpelled(s, p, 0);
    var q, end := SkipSpaces(s, p), ParseValue(s, p, 0).value.1;
    mark, blank, rest := s[..p], s[p..q], s[end..];
    WhiteFound(s, p);
    assert s == s[..p] + (s[p..q] + s[q..end] + s[end..]);
    ParsedIsWellFormed(s, p, 0);
    WellFormedIff(Value(c), 0);
  }
}
