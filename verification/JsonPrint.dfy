/**
 The text parson writes for a tree: compact or pretty, with or without escaped slashes.
 */
module JsonPrint {
  import opened CString
  import opened JsonTree
  import opened JsonString
  import opened JsonNumber

  datatype Style = Style(pretty: bool, escapeSlashes: bool)

  const TRUE_TEXT: bytes := [0x74, 0x72, 0x75, 0x65]
  const FALSE_TEXT: bytes := [0x66, 0x61, 0x6C, 0x73, 0x65]
  const NULL_TEXT: bytes := [0x6E, 0x75, 0x6C, 0x6C]
  const INDENT_TEXT: bytes := [SPACE, SPACE, SPACE, SPACE]

  /** Every number of the tree has a plain integer text. */
  ghost predicate PrintableTree(v: Json)
    decreases v
  {
    match v
    case Number(x) => Printable(x)
    case Array(items) => forall i | 0 <= i < |items| :: PrintableTree(items[i])
    case Object(members) => forall i | 0 <= i < |members| :: PrintableTree(members[i].value)
    case _ => true
  }

  function Indent(level: nat): bytes {
    if level == 0 then [] else INDENT_TEXT + Indent(level - 1)
  }

  function Indented(level: nat, style: Style): bytes {
    if style.pretty then Indent(level) else []
  }

  function LineEnd(style: Style): bytes {
    if style.pretty then [NEWLINE] else []
  }

  function Separator(more: bool): bytes {
    if more then [COMMA] else []
  }

  /** The text in front of the first element and behind the last one. */
  function Opening(bracket: byte, count: nat, style: Style): bytes {
    [bracket] + if count > 0 then LineEnd(style) else []
  }

  function Closing(bracket: byte, count: nat, level: nat, style: Style): bytes {
    (if count > 0 then Indented(level, style) else []) + [bracket]
  }

  function KeyText(name: bytes, style: Style): bytes {
    Quoted(name, style.escapeSlashes) + [COLON] + if style.pretty then [SPACE] else []
  }

  function Print(v: Json, level: nat, style: Style): (r: bytes)
    requires PrintableTree(v)
    decreases v, 0
  {
    match v
    case Null => NULL_TEXT
    case Boolean(b) => if b then TRUE_TEXT else FALSE_TEXT
    case Number(x) => PrintNumber(x)
    case String(chars) => Quoted(chars, style.escapeSlashes)
    case Array(items) =>
      Opening(LBRACKET, |items|, style) + PrintItems(items, 0, level, style)
      + Closing(RBRACKET, |items|, level, style)
    case Object(members) =>
      Opening(LBRACE, |members|, style) + PrintMembers(members, 0, level, style)
      + Closing(RBRACE, |members|, level, style)
  }

  /** The text of one array element with its indentation, separator and line end. */
  function PrintItem(items: seq<Json>, i: nat, level: nat, style: Style): bytes
    requires i < |items| && PrintableTree(items[i])
    decreases items, 0
  {
    Indented(level + 1, style) + Print(items[i], level + 1, style) + Separator(i + 1 < |items|) + LineEnd(style)
  }

  function PrintItems(items: seq<Json>, i: nat, level: nat, style: Style): bytes
    requires i <= |items| && forall k | 0 <= k < |items| :: PrintableTree(items[k])
    decreases items, |items| - i + 1
  {
    if i == |items| then [] else PrintItem(items, i, level, style) + PrintItems(items, i + 1, level, style)
  }

  function PrintMember(members: seq<Member>, i: nat, level: nat, style: Style): bytes
    requires i < |members| && PrintableTree(members[i].value)
    decreases members, 0
  {
    Indented(level + 1, style) + KeyText(members[i].name, style) + Print(members[i].value, level + 1, style)
    + Separator(i + 1 < |members|) + LineEnd(style)
  }

  function PrintMembers(members: seq<Member>, i: nat, level: nat, style: Style): bytes
    requires i <= |members| && forall k | 0 <= k < |members| :: PrintableTree(members[k].value)
    decreases members, |members| - i + 1
  {
    if i == |members| then [] else PrintMember(members, i, level, style) + PrintMembers(members, i + 1, level, style)
  }

  // ----- facts about the text -----

  ghost predicate Blank(t: bytes) {
    forall i | 0 <= i < |t| :: IsSpace(t[i])
  }

  lemma IndentIsBlank(level: nat)
    ensures Blank(Indent(level)) && |Indent(level)| == 4 * level
  {
  }

  lemma IndentedIsBlank(level: nat, style: Style)
    ensures Blank(Indented(level, style))
  {
    IndentIsBlank(level);
  }

  /** A value's text starts with a character that is neither white space nor a closing bracket. */
  lemma PrintStart(v: Json, level: nat, style: Style)
    requires PrintableTree(v)
    ensures var t := Print(v, level, style);
            t != [] && !IsSpace(t[0]) && t[0] != NUL && t[0] != RBRACKET && t[0] != RBRACE
  {
  }
}
