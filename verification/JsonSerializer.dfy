/**
 The two-pass writer: with no buffer it only counts, with a buffer it also writes.
 */
module JsonSerializer {
  import opened CString
  import opened JsonTree
  import opened JsonString
  import opened JsonNumber
  import opened JsonPrint
  import JsonObject

  /** What a call with this buffer may change: nothing in the size pass. */
  function Footprint(buf: array?<byte>): set<object> {
    if buf == null then {} else {buf}
  }

  ghost function Bytes(buf: array?<byte>): bytes
    reads buf
  {
    if buf == null then [] else buf[..]
  }

  /** There is room for `n` bytes at `at` and for a NUL behind them. */
  predicate Fits(buf: array?<byte>, at: nat, n: nat) {
    buf != null ==> at + n < buf.Length
  }

  /** From `b0` to `b` the text `t` went to position `at`; at most the byte behind it changed as well. */
  ghost predicate Wrote(b0: bytes, b: bytes, at: nat, t: bytes) {
    && |b| == |b0| && at + |t| < |b|
    && b[..at] == b0[..at]
    && b[at..at + |t|] == t
    && b[at + |t| + 1..] == b0[at + |t| + 1..]
  }

  /** The buffer, if there is one, holds `t` at `at`, closed by a NUL where `t` was not empty. */
  ghost predicate Written(b0: bytes, buf: array?<byte>, at: nat, t: bytes)
    reads buf
  {
    buf != null ==> Wrote(b0, buf[..], at, t) && (t != [] ==> buf[at + |t|] == NUL)
  }

  lemma WroteThen(b0: bytes, b1: bytes, b2: bytes, at: nat, s: bytes, t: bytes)
    requires Wrote(b0, b1, at, s) && Wrote(b1, b2, at + |s|, t)
    ensures Wrote(b0, b2, at, s + t)
  {
    assert forall i | at <= i < at + |s| ::
      b2[i] == b2[..at + |s|][i] && b1[i] == b1[..at + |s|][i] && b1[i] == s[i - at];
    assert forall i | at + |s| <= i < at + |s| + |t| :: b2[i] == t[i - (at + |s|)];
    assert b2[at..at + |s + t|] == s + t;
    assert b2[..at] == b2[..at + |s|][..at] && b1[..at] == b1[..at + |s|][..at];
    assert b1[at + |s| + |t| + 1..] == b1[at + |s| + 1..][|t|..];
    assert b0[at + |s| + |t| + 1..] == b0[at + |s| + 1..][|t|..];
  }

  lemma WroteNothing(b: bytes, at: nat)
    requires at < |b|
    ensures Wrote(b, b, at, [])
  {
  }

  lemma WroteWithNul(b0: bytes, b: bytes, at: nat, t: bytes)
    requires at + |t| < |b0| && b == b0[..at] + t + [NUL] + b0[at + |t| + 1..]
    ensures Wrote(b0, b, at, t) && b[at + |t|] == NUL
  {
    assert b[..at] == b0[..at] && b[at..at + |t|] == t && b[at + |t| + 1..] == b0[at + |t| + 1..];
  }

  lemma CopiedNext(b: bytes, at: nat, t: bytes, i: nat)
    requires i < |t| && at + |t| < |b|
    ensures Replaced(b, at, t[..i])[at + i := t[i]] == Replaced(b, at, t[..i + 1])
  {
  }

  lemma CopiedEnd(b: bytes, at: nat, t: bytes)
    requires at + |t| < |b|
    ensures Replaced(b, at, t)[at + |t| := NUL] == b[..at] + t + [NUL] + b[at + |t| + 1..]
  {
  }

  /** `append_string`. */
  method AppendString(buf: array?<byte>, at: nat, t: bytes) returns (written: nat)
    requires Fits(buf, at, |t|)
    modifies Footprint(buf)
    ensures written == |t|
    ensures Written(old(Bytes(buf)), buf, at, t)
    ensures buf != null ==> buf[at + |t|] == NUL
  {
    if buf == null {
      return |t|;
    }
    hide Wrote;
    ghost var b0 := buf[..];
    for i := 0 to |t|
      invariant buf[..] == Replaced(b0, at, t[..i])
    {
      CopiedNext(b0, at, t, i);
      hide Replaced;
      buf[at + i] := t[i];
    }
    assert t[..|t|] == t;
    buf[at + |t|] := NUL;
    CopiedEnd(b0, at, t);
    hide Replaced;
    WroteWithNul(b0, buf[..], at, t);
    return |t|;
  }

  /**
   The APPEND macros: `t` goes behind the text `done` that this call wrote since the
   buffer was `b0`, and the total grows.
   */
  method Append(ghost b0: bytes, buf: array?<byte>, at: nat, ghost done: bytes, total: nat, t: bytes)
    returns (total': nat)
    requires total == |done| && Fits(buf, at, |done| + |t|)
    requires buf != null ==> Wrote(b0, buf[..], at, done)
    modifies Footprint(buf)
    ensures total' == |done + t|
    ensures Written(b0, buf, at, done + t)
    ensures buf != null ==> buf[at + |done + t|] == NUL
  {
    var written := AppendString(buf, at + total, t);
    if buf != null {
      WroteThen(b0, old(Bytes(buf)), buf[..], at, done, t);
    }
    total' := total + written;
  }

  /** `append_indent`. */
  method AppendIndent(buf: array?<byte>, at: nat, level: nat) returns (total: nat)
    requires Fits(buf, at, |Indent(level)|)
    modifies Footprint(buf)
    ensures total == |Indent(level)|
    ensures Written(old(Bytes(buf)), buf, at, Indent(level))
  {
    total := 0;
    ghost var b0 := Bytes(buf);
    if buf != null {
      WroteNothing(b0, at);
    }
    for i := 0 to level
      invariant total == |Indent(i)|
      invariant Written(b0, buf, at, Indent(i))
    {
      IndentIsBlank(level);
      IndentIsBlank(i);
      IndentGrows(i);
      total := Append(b0, buf, at, Indent(i), total, INDENT_TEXT);
    }
  }

  lemma {:induction false} IndentGrows(level: nat)
    ensures Indent(level + 1) == Indent(level) + INDENT_TEXT
  {
    if level > 0 {
      IndentGrows(level - 1);
    }
  }

  lemma {:induction false} EscapeSnoc(chars: bytes, c: byte, escapeSlashes: bool)
    ensures Escape(chars + [c], escapeSlashes) == Escape(chars, escapeSlashes) + EscapeByte(c, escapeSlashes)
  {
    hide EscapeByte;
    if chars == [] {
      assert (chars + [c])[1..] == [];
    } else {
      EscapeSnoc(chars[1..], c, escapeSlashes);
      assert (chars + [c])[1..] == chars[1..] + [c];
    }
  }

  lemma {:induction false} EscapeTakes(chars: bytes, i: nat, escapeSlashes: bool)
    requires i < |chars|
    ensures Escape(chars[..i + 1], escapeSlashes)
         == Escape(chars[..i], escapeSlashes) + EscapeByte(chars[i], escapeSlashes)
    ensures |Escape(chars[..i + 1], escapeSlashes)| <= |Escape(chars, escapeSlashes)|
    decreases |chars| - i
  {
    assert chars[..i + 1] == chars[..i] + [chars[i]];
    EscapeSnoc(chars[..i], chars[i], escapeSlashes);
    if i + 1 == |chars| {
      assert chars[..i + 1] == chars;
    } else {
      EscapeTakes(chars, i + 1, escapeSlashes);
    }
  }

  /** The default case of `json_serialize_string`: one byte is stored as it is, with no NUL behind it. */
  method PutByte(ghost b0: bytes, buf: array?<byte>, at: nat, ghost done: bytes, total: nat, c: byte)
    returns (total': nat)
    requires total == |done| && Fits(buf, at, |done| + 1)
    requires buf != null ==> Wrote(b0, buf[..], at, done)
    modifies Footprint(buf)
    ensures total' == |done + [c]|
    ensures buf != null ==> Wrote(b0, buf[..], at, done + [c])
  {
    if buf != null {
      ghost var b1 := buf[..];
      buf[at + total] := c;
      assert Wrote(b1, buf[..], at + total, [c]);
      WroteThen(b0, b1, buf[..], at, done, [c]);
    }
    total' := total + 1;
  }

  /** `json_serialize_string`. */
  method SerializeString(chars: bytes, buf: array?<byte>, at: nat, escapeSlashes: bool) returns (total: nat)
    requires Fits(buf, at, |Quoted(chars, escapeSlashes)|)
    modifies Footprint(buf)
    ensures total == |Quoted(chars, escapeSlashes)|
    ensures Written(old(Bytes(buf)), buf, at, Quoted(chars, escapeSlashes))
  {
    hide Wrote, Escape;
    EmptyEscape(escapeSlashes);
    ghost var b0, done := Bytes(buf), [];
    if buf != null {
      WroteNothing(b0, at);
    }
    total := Append(b0, buf, at, done, 0, [QUOTE]);
    done := [QUOTE];
    assert [] + [QUOTE] == done;
    for i := 0 to |chars|
      invariant done == [QUOTE] + Escape(chars[..i], escapeSlashes)
      invariant total == |done|
      invariant buf != null ==> Wrote(b0, buf[..], at, done)
    {
      EscapeTakes(chars, i, escapeSlashes);
      var c := chars[i];
      var e := EscapeByte(c, escapeSlashes);
      if |e| > 1 || c == SLASH {
        total := Append(b0, buf, at, done, total, e);
      } else {
        total := PutByte(b0, buf, at, done, total, c);
      }
      done := done + e;
    }
    assert chars[..|chars|] == chars;
    total := Append(b0, buf, at, done, total, [QUOTE]);
  }

  lemma EmptyEscape(escapeSlashes: bool)
    ensures Escape([], escapeSlashes) == []
  {
  }

  /** The part of the text that a writer has put into the buffer so far. */
  ghost predicate Holds(b0: bytes, buf: array?<byte>, at: nat, done: bytes)
    reads buf
  {
    buf != null ==> Wrote(b0, buf[..], at, done)
  }

  lemma HoldsThen(b0: bytes, b1: bytes, buf: array?<byte>, at: nat, done: bytes, t: bytes)
    requires buf != null ==> Wrote(b0, b1, at, done)
    requires Written(b1, buf, at + |done|, t)
    ensures Holds(b0, buf, at, done + t)
  {
    if buf != null {
      WroteThen(b0, b1, buf[..], at, done, t);
    }
  }

  /** `APPEND_INDENT` where the text is pretty. */
  method AppendIndented(ghost b0: bytes, buf: array?<byte>, at: nat, ghost done: bytes, total: nat,
                        level: nat, style: Style)
    returns (total': nat)
    requires total == |done| && Fits(buf, at, |done| + |Indented(level, style)|)
    requires Holds(b0, buf, at, done)
    modifies Footprint(buf)
    ensures total' == |done + Indented(level, style)|
    ensures Holds(b0, buf, at, done + Indented(level, style))
  {
    total' := total;
    if style.pretty {
      ghost var b1 := Bytes(buf);
      var written := AppendIndent(buf, at + total, level);
      HoldsThen(b0, b1, buf, at, done, Indent(level));
      total' := total + written;
    } else {
      assert done + [] == done;
    }
  }

  /** `json_serialize_to_buffer_r`. */
  method SerializeValue(v: Json, buf: array?<byte>, at: nat, level: nat, style: Style) returns (total: nat)
    requires UniqueNames(v) && PrintableTree(v) && Fits(buf, at, |Print(v, level, style)|)
    modifies Footprint(buf)
    ensures total == |Print(v, level, style)|
    ensures Written(old(Bytes(buf)), buf, at, Print(v, level, style))
    decreases v, 1
  {
    hide Wrote;
    ghost var b0, nothing: bytes := Bytes(buf), [];
    if buf != null {
      WroteNothing(b0, at);
    }
    match v
    case Null =>
      total := Append(b0, buf, at, nothing, 0, NULL_TEXT);
      assert nothing + NULL_TEXT == NULL_TEXT;
    case Boolean(b) =>
      var word := if b then TRUE_TEXT else FALSE_TEXT;
      total := Append(b0, buf, at, nothing, 0, word);
      assert nothing + word == word;
    case Number(x) =>
      total := Append(b0, buf, at, nothing, 0, PrintNumber(x));
      assert nothing + PrintNumber(x) == PrintNumber(x);
    case String(chars) =>
      total := SerializeString(chars, buf, at, style.escapeSlashes);
    case Array(items) =>
      total := SerializeArray(items, buf, at, level, style);
    case Object(members) =>
      total := SerializeObject(members, buf, at, level, style);
  }

  // ----- arrays -----

  /** One round of the loop over an array. */
  method SerializeItem(items: seq<Json>, i: nat, buf: array?<byte>, at: nat, level: nat, style: Style)
    returns (total: nat)
    requires i < |items| && UniqueNames(items[i]) && PrintableTree(items[i])
    requires Fits(buf, at, |PrintItem(items, i, level, style)|)
    modifies Footprint(buf)
    ensures total == |PrintItem(items, i, level, style)|
    ensures Holds(old(Bytes(buf)), buf, at, PrintItem(items, i, level, style))
    decreases items, 0
  {
    hide Wrote, Print, Indented;
    ghost var b0, done: bytes := Bytes(buf), [];
    if buf != null {
      WroteNothing(b0, at);
    }
    total := AppendIndented(b0, buf, at, done, 0, level + 1, style);
    done := Indented(level + 1, style);
    assert [] + done == done;
    ghost var b1 := Bytes(buf);
    var written := SerializeValue(items[i], buf, at + total, level + 1, style);
    HoldsThen(b0, b1, buf, at, done, Print(items[i], level + 1, style));
    total := total + written;
    done := done + Print(items[i], level + 1, style);
    total := AppendEnd(b0, buf, at, done, total, i + 1 < |items|, style);
  }

  /** The comma and the line end behind an element. */
  method AppendEnd(ghost b0: bytes, buf: array?<byte>, at: nat, ghost done: bytes, total: nat, more: bool, style: Style)
    returns (total': nat)
    requires total == |done| && Fits(buf, at, |done + Separator(more) + LineEnd(style)|)
    requires Holds(b0, buf, at, done)
    modifies Footprint(buf)
    ensures total' == |done + Separator(more) + LineEnd(style)|
    ensures Holds(b0, buf, at, done + Separator(more) + LineEnd(style))
  {
    hide Wrote;
    total' := total;
    if more {
      total' := Append(b0, buf, at, done, total', [COMMA]);
    }
    assert !more ==> done + Separator(more) == done;
    if style.pretty {
      total' := Append(b0, buf, at, done + Separator(more), total', [NEWLINE]);
    }
    assert !style.pretty ==> done + Separator(more) + LineEnd(style) == done + Separator(more);
  }

  /** The opening bracket, with a line end behind it when something follows. */
  method AppendOpening(ghost b0: bytes, buf: array?<byte>, at: nat, bracket: byte, count: nat, style: Style)
    returns (total: nat)
    requires b0 == Bytes(buf) && Fits(buf, at, |Opening(bracket, count, style)|)
    modifies Footprint(buf)
    ensures total == |Opening(bracket, count, style)|
    ensures Holds(b0, buf, at, Opening(bracket, count, style))
  {
    hide Wrote;
    if buf != null {
      WroteNothing(b0, at);
    }
    total := Append(b0, buf, at, [], 0, [bracket]);
    assert [] + [bracket] == [bracket];
    if count > 0 && style.pretty {
      total := Append(b0, buf, at, [bracket], total, [NEWLINE]);
    } else {
      assert Opening(bracket, count, style) == [bracket];
    }
  }

  /** The closing bracket, with indentation in front of it when something precedes. */
  method AppendClosing(ghost b0: bytes, buf: array?<byte>, at: nat, ghost done: bytes, total: nat,
                       bracket: byte, count: nat, level: nat, style: Style)
    returns (total': nat)
    requires total == |done| && Fits(buf, at, |done + Closing(bracket, count, level, style)|)
    requires Holds(b0, buf, at, done)
    modifies Footprint(buf)
    ensures total' == |done + Closing(bracket, count, level, style)|
    ensures Written(b0, buf, at, done + Closing(bracket, count, level, style))
  {
    hide Wrote;
    total' := total;
    ghost var blank := if count > 0 then Indented(level, style) else [];
    assert done + Closing(bracket, count, level, style) == done + blank + [bracket];
    if count > 0 {
      total' := AppendIndented(b0, buf, at, done, total, level, style);
    } else {
      assert done + blank == done;
    }
    total' := Append(b0, buf, at, done + blank, total', [bracket]);
  }

  method SerializeArray(items: seq<Json>, buf: array?<byte>, at: nat, level: nat, style: Style) returns (total: nat)
    requires forall k | 0 <= k < |items| :: UniqueNames(items[k]) && PrintableTree(items[k])
    requires Fits(buf, at, |Print(Array(items), level, style)|)
    modifies Footprint(buf)
    ensures total == |Print(Array(items), level, style)|
    ensures Written(old(Bytes(buf)), buf, at, Print(Array(items), level, style))
    decreases items, 1
  {
    hide Wrote, PrintItem;
    ghost var b0, open := Bytes(buf), Opening(LBRACKET, |items|, style);
    ghost var all := PrintItems(items, 0, level, style);
    total := AppendOpening(b0, buf, at, LBRACKET, |items|, style);
    ghost var done := [];
    assert open + done == open;
    assert done + all == all;
    for i := 0 to |items|
      invariant total == |open + done|
      invariant done + PrintItems(items, i, level, style) == all
      invariant Holds(b0, buf, at, open + done)
    {
      ghost var text, b1 := PrintItem(items, i, level, style), Bytes(buf);
      Shift(open, done, text, PrintItems(items, i + 1, level, style));
      var written := SerializeItem(items, i, buf, at + total, level, style);
      if buf != null {
        WroteThen(b0, b1, buf[..], at, open + done, text);
      }
      total := total + written;
      done := done + text;
    }
    assert done == all;
    total := AppendClosing(b0, buf, at, open + all, total, RBRACKET, |items|, level, style);
  }

  lemma Shift(a: bytes, b: bytes, c: bytes, d: bytes)
    ensures b + (c + d) == b + c + d && a + b + c == a + (b + c)
  {
  }

  // ----- objects -----

  /** One round of the loop over an object; the value is looked up under the name just written. */
  method SerializeMember(members: seq<Member>, i: nat, buf: array?<byte>, at: nat, level: nat, style: Style)
    returns (total: nat)
    requires i < |members| && Distinct(members) && UniqueNames(members[i].value) && PrintableTree(members[i].value)
    requires Fits(buf, at, |PrintMember(members, i, level, style)|)
    modifies Footprint(buf)
    ensures total == |PrintMember(members, i, level, style)|
    ensures Holds(old(Bytes(buf)), buf, at, PrintMember(members, i, level, style))
    decreases members, 0
  {
    hide Wrote, Print, Indented, Quoted, Get, Find, Distinct;
    FindOwnName(members, i);
    var key := members[i].name;
    var value := Get(members, key).value;
    ghost var b0, done: bytes := Bytes(buf), [];
    if buf != null {
      WroteNothing(b0, at);
    }
    total := AppendIndented(b0, buf, at, done, 0, level + 1, style);
    done := Indented(level + 1, style);
    assert [] + done == done;
    total := AppendKey(b0, buf, at, done, total, key, style);
    done := done + KeyText(key, style);
    ghost var b1 := Bytes(buf);
    assert value == members[i].value;
    var written := SerializeValue(value, buf, at + total, level + 1, style);
    HoldsThen(b0, b1, buf, at, done, Print(value, level + 1, style));
    total := total + written;
    done := done + Print(value, level + 1, style);
    total := AppendEnd(b0, buf, at, done, total, i + 1 < |members|, style);
  }

  /** A name, the colon, and a space where the text is pretty. */
  method AppendKey(ghost b0: bytes, buf: array?<byte>, at: nat, ghost done: bytes, total: nat, name: bytes,
                   style: Style)
    returns (total': nat)
    requires total == |done| && Fits(buf, at, |done + KeyText(name, style)|)
    requires Holds(b0, buf, at, done)
    modifies Footprint(buf)
    ensures total' == |done + KeyText(name, style)|
    ensures Holds(b0, buf, at, done + KeyText(name, style))
  {
    hide Wrote, Quoted;
    ghost var quoted, b1 := Quoted(name, style.escapeSlashes), Bytes(buf);
    ghost var space := if style.pretty then [SPACE] else [];
    assert done + KeyText(name, style) == done + quoted + [COLON] + space;
    var written := SerializeString(name, buf, at + total, style.escapeSlashes);
    HoldsThen(b0, b1, buf, at, done, quoted);
    total' := Append(b0, buf, at, done + quoted, total + written, [COLON]);
    if style.pretty {
      total' := Append(b0, buf, at, done + quoted + [COLON], total', [SPACE]);
    } else {
      assert done + quoted + [COLON] + space == done + quoted + [COLON];
    }
  }

  method SerializeObject(members: seq<Member>, buf: array?<byte>, at: nat, level: nat, style: Style)
    returns (total: nat)
    requires Distinct(members)
    requires forall k | 0 <= k < |members| :: UniqueNames(members[k].value) && PrintableTree(members[k].value)
    requires Fits(buf, at, |Print(Object(members), level, style)|)
    modifies Footprint(buf)
    ensures total == |Print(Object(members), level, style)|
    ensures Written(old(Bytes(buf)), buf, at, Print(Object(members), level, style))
    decreases members, 1
  {
    hide Wrote, PrintMember;
    ghost var b0, open := Bytes(buf), Opening(LBRACE, |members|, style);
    ghost var all := PrintMembers(members, 0, level, style);
    total := AppendOpening(b0, buf, at, LBRACE, |members|, style);
    ghost var done := [];
    assert open + done == open;
    assert done + all == all;
    for i := 0 to |members|
      invariant total == |open + done|
      invariant done + PrintMembers(members, i, level, style) == all
      invariant Holds(b0, buf, at, open + done)
    {
      ghost var text, b1 := PrintMember(members, i, level, style), Bytes(buf);
      Shift(open, done, text, PrintMembers(members, i + 1, level, style));
      var written := SerializeMember(members, i, buf, at + total, level, style);
      if buf != null {
        WroteThen(b0, b1, buf[..], at, open + done, text);
      }
      total := total + written;
      done := done + text;
    }
    assert done == all;
    total := AppendClosing(b0, buf, at, open + all, total, RBRACE, |members|, level, style);
  }

  // ----- the entry points -----

  /** `json_serialization_size` and its pretty form: the text and its NUL. */
  method SerializationSize(v: Json, style: Style) returns (size: nat)
    requires UniqueNames(v) && PrintableTree(v)
    ensures size == |Print(v, 0, style)| + 1
  {
    var written := SerializeValue(v, null, 0, 0, style);
    size := written + 1;
  }

  /** `json_serialize_to_buffer`: refused without a change when the buffer is smaller than the serialization size. */
  method SerializeToBuffer(v: Json, buf: array<byte>, style: Style) returns (ok: bool)
    requires UniqueNames(v) && PrintableTree(v)
    modifies buf
    ensures ok <==> buf.Length >= |Print(v, 0, style)| + 1
    ensures !ok ==> buf[..] == old(buf[..])
    ensures ok ==> var n := |Print(v, 0, style)|;
                   buf[..n] == Print(v, 0, style) && buf[n] == NUL && buf[n + 1..] == old(buf[n + 1..])
  {
    hide Print;
    var needed := SerializationSize(v, style);
    if buf.Length < needed {
      return false;
    }
    ghost var b0 := buf[..];
    var written := SerializeValue(v, buf, 0, 0, style);
    PrintStart(v, 0, style);
    return true;
  }

  /** `json_serialize_to_string`: a buffer of exactly the computed size suffices. */
  method SerializeToString(v: Json, style: Style) returns (buf: array<byte>)
    requires UniqueNames(v) && PrintableTree(v)
    ensures fresh(buf) && buf[..] == Print(v, 0, style) + [NUL]
  {
    hide Print;
    var size := SerializationSize(v, style);
    buf := new byte[size];
    var ok := SerializeToBuffer(v, buf, style);
    assert buf[..] == buf[..size - 1] + [buf[size - 1]];
  }
}
