/**
 The text that parson writes, as a spelling with a prescribed layout: which characters
 are escaped and how, and where there is white space.
 */
module JsonLayout {
  import opened CString
  import opened JsonTree
  import opened JsonString
  import opened JsonNumber
  import opened JsonPrint
  import opened JsonGrammar
  import Num = JsonNumeral
  import Lit = JsonLiteral

  // ----- the layout -----

  /** In pretty text a line end and four spaces for each level, otherwise nothing. */
  function NewLine(level: nat, pretty: bool): bytes {
    if pretty then [0x0A] + seq(4 * level, i => 0x20) else []
  }

  /**
   How a character is written: a slash with a backslash if and only if the setting says so,
   a control character in its short form where there is one and otherwise with lower-case
   digits, a quotation mark and a backslash with a backslash, anything else as it is.
   */
  predicate Written(ch: Lit.Char, escapeSlashes: bool) {
    match ch
    case Raw(c) => c == Byte('/') ==> !escapeSlashes
    case Short(_, c) => c == Byte('/') ==> escapeSlashes
    case Digits(cp, digits) =>
      cp < 0x20 && cp !in {0x08, 0x09, 0x0A, 0x0C, 0x0D}
      && forall i | 0 <= i < |digits| :: !(Byte('A') <= digits[i] <= Byte('F'))
    case Pair(_, _, _) => false
  }

  ghost predicate AllWritten(chars: seq<Lit.Char>, escapeSlashes: bool) {
    forall i | 0 <= i < |chars| :: Written(chars[i], escapeSlashes)
  }

  /** A plain integer. */
  ghost predicate PlainInteger(n: Num.Numeral, x: real) {
    n.Legal() && !n.point && n.exponent.None? && (n.minus <==> x < 0.0)
  }

  /**
   Inside `level` containers: an element starts on a line of its own, one level deeper, the
   closing bracket on a line of its own, and behind a colon there is one space. Compact
   text has no white space.
   */
  ghost predicate LaidOut(c: Spelling, level: nat, style: Style)
    decreases c
  {
    match c
    case Figure(n, x) => PlainInteger(n, x)
    case Characters(chars) => AllWritten(chars, style.escapeSlashes)
    case List(blank, items) =>
      && blank == []
      && forall i | 0 <= i < |items| ::
           && items[i].before == NewLine(level + 1, style.pretty)
           && items[i].behind == (if i == |items| - 1 then NewLine(level, style.pretty) else [])
           && LaidOut(items[i].spelling, level + 1, style)
    case Record(blank, entries) =>
      && blank == []
      && forall i | 0 <= i < |entries| ::
           && entries[i].before == NewLine(level + 1, style.pretty)
           && AllWritten(entries[i].key, style.escapeSlashes) && entries[i].behindKey == []
           && entries[i].value.before == (if style.pretty then [0x20] else [])
           && entries[i].value.behind == (if i == |entries| - 1 then NewLine(level, style.pretty) else [])
           && LaidOut(entries[i].value.spelling, level + 1, style)
    case _ => true
  }

  // ----- characters -----

  function CharOf(c: byte, escapeSlashes: bool): Lit.Char {
    var e := EscapeByte(c, escapeSlashes);
    if |e| == 1 then Lit.Raw(c) else if |e| == 2 then Lit.Short(e[1], c) else Lit.Digits(c, e[2..])
  }

  /** A control character without a short form. */
  lemma ControlWritten(c: byte, escapeSlashes: bool)
    requires c < 0x20 && |EscapeByte(c, escapeSlashes)| == 6
    ensures var digits := EscapeByte(c, escapeSlashes)[2..];
            && Lit.Spells(digits, c) && c !in {0x08, 0x09, 0x0A, 0x0C, 0x0D}
            && (forall i | 0 <= i < |digits| :: !(Byte('A') <= digits[i] <= Byte('F')))
            && EscapeByte(c, escapeSlashes) == [Byte('\\'), Byte('u')] + digits
  {
    assert EscapeByte(c, escapeSlashes)[2..] == [ZERO, ZERO, HexDigit(c / 16), HexDigit(c % 16)];
    assert c as int / 4096 == 0 && c as int / 256 % 16 == 0 && c as int / 16 % 16 == c as int / 16;
  }

  lemma CharWritten(c: byte, escapeSlashes: bool)
    ensures var ch := CharOf(c, escapeSlashes);
            ch.Legal() && ch.Value() == [c] && ch.Text() == EscapeByte(c, escapeSlashes) && Written(ch, escapeSlashes)
  {
    if |EscapeByte(c, escapeSlashes)| == 6 {
      ControlWritten(c, escapeSlashes);
      hide Lit.Spells, HexDigit;
    }
  }

  lemma {:induction false} CharsWritten(chars: bytes, escapeSlashes: bool) returns (r: seq<Lit.Char>)
    ensures Lit.AllLegal(r) && Lit.ValueOf(r) == chars && Lit.TextOf(r) == Escape(chars, escapeSlashes)
    ensures AllWritten(r, escapeSlashes)
  {
    if chars == [] {
      r := [];
    } else {
      var ch := CharOf(chars[0], escapeSlashes);
      CharWritten(chars[0], escapeSlashes);
      hide CharOf, Lit.Char.Legal, Lit.Char.Text, Lit.Char.Value, Written, EscapeByte;
      var rest := CharsWritten(chars[1..], escapeSlashes);
      Lit.Cons(ch, rest);
      r := [ch] + rest;
    }
  }

  // ----- numbers -----

  lemma {:induction false} NatWritten(n: nat)
    ensures Num.AllDigits(PrintNat(n)) && Num.ValueOf(PrintNat(n)) == n
    ensures PrintNat(n)[0] == Byte('0') ==> |PrintNat(n)| == 1
  {
    var t := PrintNat(n);
    if n >= 10 {
      NatWritten(n / 10);
      Num.ValueSnoc(PrintNat(n / 10), ZERO + n % 10);
    } else {
      assert t[1..] == [] && Num.ValueOf([]) == 0 && Num.TenTo(0) == 1;
    }
  }

  lemma WholeAmounts(x: real, k: nat)
    ensures Num.Amounts(x, k, 0, 0) <==> x == k as real
  {
    assert Num.TenTo(0) == 1 && k * 1 == k;
  }

  lemma NumberWritten(x: real) returns (n: Num.Numeral)
    requires Printable(x)
    ensures PlainInteger(n, x) && n.Taken() && n.Denotes(x) && n.Text() == PrintNumber(x)
  {
    var k := if x.Floor < 0 then -x.Floor else x.Floor;
    NatWritten(k);
    hide PrintNat, Num.ValueOf, Num.AllDigits, Num.Amounts;
    n := Num.Numeral(x.Floor < 0, PrintNat(k), false, [], None);
    NoDigits();
    assert n.whole + n.fraction == n.whole && n.Unsigned() == n.whole;
    WholeAmounts(if n.minus then -x else x, k);
    Num.SignInFront(n);
  }

  /** Reading a printed integer back gives its value and stops behind its last digit. */
  lemma ParseNumberOfPrinted(s: bytes, p: nat, x: real)
    requires Printable(x)
    requires At(s, p, PrintNumber(x)) && Num.Ends(Peek(s, p + |PrintNumber(x)|))
    ensures ParseNumber(s, p) == Some((x, p + |PrintNumber(x)|))
  {
    var n := NumberWritten(x);
    Num.NumeralIsRead(s, p, n, x);
  }

  lemma NoDigits()
    ensures Num.AllDigits([])
  {
  }

  // ----- white space -----

  lemma {:induction false} IndentIs(level: nat)
    ensures Indent(level) == seq(4 * level, i => 0x20)
  {
    if level > 0 {
      IndentIs(level - 1);
    }
  }

  lemma LineAndIndent(level: nat, style: Style)
    ensures LineEnd(style) + Indented(level, style) == NewLine(level, style.pretty)
  {
    IndentIs(level);
  }

  lemma NewLineIsWhite(level: nat, pretty: bool)
    ensures White(NewLine(level, pretty)) && White([]) && White([0x20])
  {
  }

  // ----- lists -----

  ghost predicate ItemLaidOut(e: Spaced, last: bool, level: nat, style: Style) {
    && e.before == NewLine(level + 1, style.pretty)
    && e.behind == (if last then NewLine(level, style.pretty) else [])
    && LaidOut(e.spelling, level + 1, style)
  }

  ghost predicate ItemsLaidOut(items: seq<Spaced>, level: nat, style: Style) {
    forall i | 0 <= i < |items| :: ItemLaidOut(items[i], i == |items| - 1, level, style)
  }

  /** The text of the items from `i` on, with the line end in front of the first and the closing bracket. */
  function ItemsFrom(items: seq<Json>, i: nat, level: nat, style: Style): bytes
    requires i < |items| && forall k | 0 <= k < |items| :: PrintableTree(items[k])
  {
    LineEnd(style) + (PrintItems(items, i, level, style) + Closing(RBRACKET, |items|, level, style))
  }

  lemma LastElement(line: bytes, blank: bytes, text: bytes, indent: bytes, bracket: bytes)
    ensures line + (blank + text + [] + line + [] + (indent + bracket))
         == line + blank + (text + (line + indent)) + bracket
  {
  }

  lemma FurtherElement(line: bytes, blank: bytes, text: bytes, comma: bytes, rest: bytes, closing: bytes)
    ensures line + (blank + text + comma + line + rest + closing)
         == line + blank + (text + []) + (comma + (line + (rest + closing)))
  {
  }

  lemma ItemsTextIs(items: seq<Json>, i: nat, level: nat, style: Style)
    requires i < |items| && forall k | 0 <= k < |items| :: PrintableTree(items[k])
    ensures var text := Print(items[i], level + 1, style);
            ItemsFrom(items, i, level, style)
            == NewLine(level + 1, style.pretty)
               + (if i + 1 == |items| then text + NewLine(level, style.pretty) else text + [])
               + (if i + 1 == |items| then [Byte(']')] else [Byte(',')] + ItemsFrom(items, i + 1, level, style))
  {
    var line, blank, text := LineEnd(style), Indented(level + 1, style), Print(items[i], level + 1, style);
    LineAndIndent(level + 1, style);
    LineAndIndent(level, style);
    assert PrintItems(items, i, level, style)
        == blank + text + Separator(i + 1 < |items|) + line + PrintItems(items, i + 1, level, style);
    hide Print, LineEnd, Indented, NewLine;
    if i + 1 == |items| {
      assert PrintItems(items, i + 1, level, style) == [];
      LastElement(line, blank, text, Indented(level, style), [RBRACKET]);
    } else {
      FurtherElement(line, blank, text, [COMMA], PrintItems(items, i + 1, level, style),
                     Closing(RBRACKET, |items|, level, style));
    }
  }

  ghost predicate ItemsSpelled(r: seq<Spaced>, items: seq<Json>, i: nat, level: nat, style: Style)
    requires i < |items| && forall k | 0 <= k < |items| :: PrintableTree(items[k])
  {
    && r != [] && LegalItems(r) && ItemValues(r) == items[i..] && ItemsLaidOut(r, level, style)
    && ItemsText(r) == ItemsFrom(items, i, level, style)
  }

  lemma ItemOf(c: Spelling, last: bool, level: nat, style: Style) returns (e: Spaced)
    requires Legal(c) && LaidOut(c, level + 1, style)
    ensures LegalSpaced(e) && SpacedValue(e) == Value(c) && ItemLaidOut(e, last, level, style)
    ensures SpacedText(e)
         == NewLine(level + 1, style.pretty) + (Text(c) + if last then NewLine(level, style.pretty) else [])
  {
    NewLineIsWhite(level, style.pretty);
    NewLineIsWhite(level + 1, style.pretty);
    hide NewLine;
    e := Spaced(NewLine(level + 1, style.pretty), c, if last then NewLine(level, style.pretty) else []);
    SpacedOf(e);
    SpacedTextIs(e);
  }

  lemma OneItemLaidOut(e: Spaced, level: nat, style: Style)
    requires ItemLaidOut(e, true, level, style)
    ensures ItemsLaidOut([e], level, style)
  {
    hide ItemLaidOut;
  }

  lemma MoreItemsLaidOut(e: Spaced, rest: seq<Spaced>, level: nat, style: Style)
    requires ItemLaidOut(e, false, level, style) && rest != [] && ItemsLaidOut(rest, level, style)
    ensures ItemsLaidOut([e] + rest, level, style)
  {
    hide ItemLaidOut;
    var items := [e] + rest;
    forall i | 0 <= i < |items|
      ensures ItemLaidOut(items[i], i == |items| - 1, level, style)
    {
      if i > 0 {
        assert items[i] == rest[i - 1];
        assert (i - 1 == |rest| - 1) == (i == |items| - 1);
      }
    }
  }

  lemma {:induction false} ItemsPrinted(items: seq<Json>, i: nat, level: nat, style: Style) returns (r: seq<Spaced>)
    requires i < |items| && forall k | 0 <= k < |items| :: PrintableTree(items[k])
    ensures ItemsSpelled(r, items, i, level, style)
    decreases items, |items| - i
  {
    hide Print, NewLine, Legal, LegalItems, LegalSpaced, Value, SpacedValue, ItemValues, ItemsText, SpacedText, Text,
         LaidOut, ItemLaidOut, ItemsLaidOut, ItemsFrom, PrintableTree;
    var c := ValuePrinted(items[i], level + 1, style);
    var last := i + 1 == |items|;
    var e := ItemOf(c, last, level, style);
    ItemsTextIs(items, i, level, style);
    if last {
      OneItem(e);
      OneItemLaidOut(e, level, style);
      r := [e];
      assert items[i..] == [items[i]];
    } else {
      var rest := ItemsPrinted(items, i + 1, level, style);
      MoreItems(e, rest);
      MoreItemsLaidOut(e, rest, level, style);
      r := [e] + rest;
      assert items[i..] == [items[i]] + items[i + 1..];
    }
  }

  // ----- records -----

  ghost predicate EntryLaidOut(e: Entry, last: bool, level: nat, style: Style) {
    && e.before == NewLine(level + 1, style.pretty)
    && AllWritten(e.key, style.escapeSlashes) && e.behindKey == []
    && e.value.before == (if style.pretty then [0x20] else [])
    && e.value.behind == (if last then NewLine(level, style.pretty) else [])
    && LaidOut(e.value.spelling, level + 1, style)
  }

  ghost predicate EntriesLaidOut(entries: seq<Entry>, level: nat, style: Style) {
    forall i | 0 <= i < |entries| :: EntryLaidOut(entries[i], i == |entries| - 1, level, style)
  }

  function EntriesFrom(members: seq<Member>, i: nat, level: nat, style: Style): bytes
    requires i < |members| && forall k | 0 <= k < |members| :: PrintableTree(members[k].value)
  {
    LineEnd(style) + (PrintMembers(members, i, level, style) + Closing(RBRACE, |members|, level, style))
  }

  lemma EntriesTextIs(members: seq<Member>, i: nat, level: nat, style: Style)
    requires i < |members| && forall k | 0 <= k < |members| :: PrintableTree(members[k].value)
    ensures var text := KeyText(members[i].name, style) + Print(members[i].value, level + 1, style);
            EntriesFrom(members, i, level, style)
            == NewLine(level + 1, style.pretty)
               + (if i + 1 == |members| then text + NewLine(level, style.pretty) else text + [])
               + (if i + 1 == |members| then [Byte('}')] else [Byte(',')] + EntriesFrom(members, i + 1, level, style))
  {
    hide Print, PrintMembers, LineEnd, Indented, NewLine, KeyText;
    var line, blank := LineEnd(style), Indented(level + 1, style);
    var text := KeyText(members[i].name, style) + Print(members[i].value, level + 1, style);
    LineAndIndent(level + 1, style);
    LineAndIndent(level, style);
    PrintMembersIs(members, i, level, style);
    if i + 1 == |members| {
      LastElement(line, blank, text, Indented(level, style), [RBRACE]);
    } else {
      FurtherElement(line, blank, text, [COMMA], PrintMembers(members, i + 1, level, style),
                     Closing(RBRACE, |members|, level, style));
    }
  }

  lemma PrintMembersIs(members: seq<Member>, i: nat, level: nat, style: Style)
    requires i < |members| && forall k | 0 <= k < |members| :: PrintableTree(members[k].value)
    ensures PrintMembers(members, i, level, style)
         == Indented(level + 1, style) + (KeyText(members[i].name, style) + Print(members[i].value, level + 1, style))
            + Separator(i + 1 < |members|) + LineEnd(style) + PrintMembers(members, i + 1, level, style)
    ensures i + 1 == |members| ==> PrintMembers(members, i + 1, level, style) == []
  {
    Join(Indented(level + 1, style), KeyText(members[i].name, style), Print(members[i].value, level + 1, style));
    hide Print, LineEnd, Indented, KeyText, Separator;
  }

  lemma Join(a: bytes, b: bytes, c: bytes)
    ensures a + b + c == a + (b + c)
  {
  }

  ghost predicate EntriesSpelled(r: seq<Entry>, members: seq<Member>, i: nat, level: nat, style: Style)
    requires i < |members| && forall k | 0 <= k < |members| :: PrintableTree(members[k].value)
  {
    && r != [] && LegalEntries(r) && EntryValues(r) == members[i..] && EntriesLaidOut(r, level, style)
    && EntriesText(r) == EntriesFrom(members, i, level, style)
  }

  lemma EntryOfMember(name: bytes, c: Spelling, last: bool, level: nat, style: Style) returns (e: Entry)
    requires Legal(c) && LaidOut(c, level + 1, style)
    ensures LegalEntry(e) && EntryValue(e) == Member(name, Value(c)) && EntryLaidOut(e, last, level, style)
    ensures EntryText(e)
         == NewLine(level + 1, style.pretty)
            + (KeyText(name, style) + Text(c) + if last then NewLine(level, style.pretty) else [])
  {
    NewLineIsWhite(level, style.pretty);
    NewLineIsWhite(level + 1, style.pretty);
    var key := CharsWritten(name, style.escapeSlashes);
    hide NewLine, Lit.AllLegal, Lit.TextOf, Lit.ValueOf, AllWritten, Escape, Legal, Text, Value, LaidOut, White;
    var space, end := if style.pretty then [0x20] else [], if last then NewLine(level, style.pretty) else [];
    var value := Spaced(space, c, end);
    e := Entry(NewLine(level + 1, style.pretty), key, [], value);
    SpacedOf(value);
    EntryOf(e);
    SpacedTextIs(value);
    EntryTextIs(e);
    KeyAndValue(Lit.Literal(key), space, Text(c), end);
    KeyTextIs(name, style, key);
    hide Lit.Literal, KeyText;
  }

  lemma KeyTextIs(name: bytes, style: Style, key: seq<Lit.Char>)
    requires Lit.TextOf(key) == Escape(name, style.escapeSlashes)
    ensures KeyText(name, style) == Lit.Literal(key) + [COLON] + if style.pretty then [0x20] else []
  {
  }

  lemma KeyAndValue(key: bytes, space: bytes, text: bytes, end: bytes)
    ensures key + ([] + ([Byte(':')] + (space + (text + end)))) == key + [COLON] + space + text + end
  {
  }

  lemma OneEntryLaidOut(e: Entry, level: nat, style: Style)
    requires EntryLaidOut(e, true, level, style)
    ensures EntriesLaidOut([e], level, style)
  {
    hide EntryLaidOut;
  }

  lemma MoreEntriesLaidOut(e: Entry, rest: seq<Entry>, level: nat, style: Style)
    requires EntryLaidOut(e, false, level, style) && rest != [] && EntriesLaidOut(rest, level, style)
    ensures EntriesLaidOut([e] + rest, level, style)
  {
    hide EntryLaidOut;
    var entries := [e] + rest;
    forall i | 0 <= i < |entries|
      ensures EntryLaidOut(entries[i], i == |entries| - 1, level, style)
    {
      if i > 0 {
        assert entries[i] == rest[i - 1];
        assert (i - 1 == |rest| - 1) == (i == |entries| - 1);
      }
    }
  }

  lemma {:induction false} EntriesPrinted(members: seq<Member>, i: nat, level: nat, style: Style)
    returns (r: seq<Entry>)
    requires i < |members| && forall k | 0 <= k < |members| :: PrintableTree(members[k].value)
    ensures EntriesSpelled(r, members, i, level, style)
    decreases members, |members| - i
  {
    hide Print, NewLine, Legal, LegalEntries, LegalEntry, Value, EntryValue, EntryValues, EntriesText, EntryText, Text,
         LaidOut, EntryLaidOut, EntriesLaidOut, EntriesFrom, PrintableTree, KeyText;
    var c := ValuePrinted(members[i].value, level + 1, style);
    var last := i + 1 == |members|;
    var e := EntryOfMember(members[i].name, c, last, level, style);
    EntriesTextIs(members, i, level, style);
    if last {
      OneEntry(e);
      OneEntryLaidOut(e, level, style);
      r := [e];
      assert members[i..] == [members[i]];
    } else {
      var rest := EntriesPrinted(members, i + 1, level, style);
      MoreEntries(e, rest);
      MoreEntriesLaidOut(e, rest, level, style);
      r := [e] + rest;
      assert members[i..] == [members[i]] + members[i + 1..];
    }
  }

  // ----- values -----

  lemma EmptyContainers(level: nat, style: Style)
    ensures Print(Array([]), level, style) == Text(List([], []))
    ensures Print(Object([]), level, style) == Text(Record([], []))
    ensures LaidOut(List([], []), level, style) && LaidOut(Record([], []), level, style)
  {
  }

  lemma PrintIs(items: seq<Json>, members: seq<Member>, level: nat, style: Style)
    requires forall k | 0 <= k < |items| :: PrintableTree(items[k])
    requires forall k | 0 <= k < |members| :: PrintableTree(members[k].value)
    ensures items != [] ==> Print(Array(items), level, style) == [Byte('[')] + ItemsFrom(items, 0, level, style)
    ensures members != [] ==>
              Print(Object(members), level, style) == [Byte('{')] + EntriesFrom(members, 0, level, style)
  {
    hide PrintItems, PrintMembers, Closing, LineEnd;
  }

  lemma ListLaidOut(r: seq<Spaced>, level: nat, style: Style)
    requires ItemsLaidOut(r, level, style)
    ensures LaidOut(List([], r), level, style)
  {
  }

  lemma ArrayPrinted(items: seq<Json>, level: nat, style: Style, r: seq<Spaced>)
    requires items != [] && (forall k | 0 <= k < |items| :: PrintableTree(items[k]))
    requires ItemsSpelled(r, items, 0, level, style)
    ensures Print(Array(items), level, style) == Text(List([], r)) && LaidOut(List([], r), level, style)
    ensures Legal(List([], r)) && Value(List([], r)) == Array(items)
  {
    hide Print, ItemsText, ItemsFrom, Legal, LegalItems, Value, ItemValues, Text, LaidOut, ItemsLaidOut;
    NothingInside();
    ListOf([], r);
    ListText([], r);
    ListLaidOut(r, level, style);
    PrintIs(items, [], level, style);
    assert items[0..] == items;
  }

  lemma RecordLaidOut(r: seq<Entry>, level: nat, style: Style)
    requires EntriesLaidOut(r, level, style)
    ensures LaidOut(Record([], r), level, style)
  {
  }

  lemma ObjectPrinted(members: seq<Member>, level: nat, style: Style, r: seq<Entry>)
    requires members != [] && (forall k | 0 <= k < |members| :: PrintableTree(members[k].value))
    requires EntriesSpelled(r, members, 0, level, style)
    ensures Print(Object(members), level, style) == Text(Record([], r)) && LaidOut(Record([], r), level, style)
    ensures Legal(Record([], r)) && Value(Record([], r)) == Object(members)
  {
    hide Print, EntriesText, EntriesFrom, Legal, LegalEntries, Value, EntryValues, Text, LaidOut, EntriesLaidOut;
    NothingInside();
    RecordOf([], r);
    RecordText([], r);
    RecordLaidOut(r, level, style);
    PrintIs([], members, level, style);
    assert members[0..] == members;
  }

  lemma ScalarPrinted(v: Json, level: nat, style: Style) returns (c: Spelling)
    requires PrintableTree(v) && !v.Array? && !v.Object?
    ensures Legal(c) && Value(c) == v && Text(c) == Print(v, level, style) && LaidOut(c, level, style)
  {
    match v
    case Null =>
      c := NullWord;
      assert Text(c) == NULL_TEXT;
    case Boolean(b) =>
      c := if b then TrueWord else FalseWord;
      assert Text(TrueWord) == TRUE_TEXT && Text(FalseWord) == FALSE_TEXT;
    case Number(x) =>
      var n := NumberWritten(x);
      c := Figure(n, x);
    case String(chars) =>
      var r := CharsWritten(chars, style.escapeSlashes);
      c := Characters(r);
  }

  /** What is written is a spelling of the value with the prescribed layout. */
  lemma {:induction false} ValuePrinted(v: Json, level: nat, style: Style) returns (c: Spelling)
    requires PrintableTree(v)
    ensures Legal(c) && Value(c) == v && Text(c) == Print(v, level, style) && LaidOut(c, level, style)
    decreases v
  {
    hide Legal, Value, Text, LaidOut, Print, ItemsSpelled, EntriesSpelled;
    match v
    case Array(items) =>
      if items == [] {
        c := List([], []);
        EmptyContainers(level, style);
        NothingInside();
        ListOf([], []);
      } else {
        var r := ItemsPrinted(items, 0, level, style);
        c := List([], r);
        ArrayPrinted(items, level, style, r);
      }
    case Object(members) =>
      if members == [] {
        c := Record([], []);
        EmptyContainers(level, style);
        NothingInside();
        RecordOf([], []);
      } else {
        var r := EntriesPrinted(members, 0, level, style);
        c := Record([], r);
        ObjectPrinted(members, level, style, r);
      }
    case _ => c := ScalarPrinted(v, level, style);
  }
}
