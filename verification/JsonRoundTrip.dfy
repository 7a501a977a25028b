/**
 Reading what was written gives the tree back.
 */
module JsonRoundTrip {
  import opened CString
  import opened JsonTree
  import opened JsonPrint
  import opened JsonParse
  import JsonNumeral
  import JsonGrammar
  import JsonLayout

  /** A printed value, wherever it stands, is read back to its end, unless it is not well formed there. */
  lemma ParsePrinted(s: bytes, p: nat, v: Json, level: nat, style: Style, nesting: nat)
    requires PrintableTree(v) && At(s, p, Print(v, level, style))
    requires JsonNumeral.Ends(Peek(s, p + |Print(v, level, style)|))
    ensures p <= |s|
    ensures ParseValue(s, p, nesting)
         == if WellFormed(v, nesting) then Some((v, p + |Print(v, level, style)|)) else None
  {
    hide Print, ParseValue, WellFormed;
    var c := JsonLayout.ValuePrinted(v, level, style);
    assert [] + JsonGrammar.Text(c) == Print(v, level, style);
    JsonGrammar.SpelledIsRead(s, p, [], c, nesting);
  }

  // ----- the main results -----

  /**
   Parsing the text of a well formed tree, at any level, gives exactly that tree and
   leaves the cursor at the end of the text.
   */
  lemma RoundTrip(v: Json, level: nat, style: Style)
    requires WellFormed(v, 0) && PrintableTree(v)
    ensures var text := Print(v, level, style);
            ParseValue(text, 0, 0) == Some((v, |text|)) && ParseText(text) == Some(v)
  {
    hide Print, ParseValue, SkipByteOrderMark, WellFormed, PrintableTree;
    var text := Print(v, level, style);
    PrintStart(v, level, style);
    ParsePrinted(text, 0, v, level, style, 0);
    NoByteOrderMark(v, level, style);
  }

  lemma NoByteOrderMark(v: Json, level: nat, style: Style)
    requires PrintableTree(v)
    ensures SkipByteOrderMark(Print(v, level, style)) == 0
  {
  }

  /** The text a read tree is written as; reading and writing it again changes nothing. */
  lemma NormalForm(s: bytes, level: nat, style: Style)
    requires ParseText(s).Some? && PrintableTree(ParseText(s).value)
    ensures var normal := Print(ParseText(s).value, level, style);
            ParseText(normal) == ParseText(s)
            && Print(ParseText(normal).value, level, style) == normal
  {
    ParseTextIsWellFormed(s);
    RoundTrip(ParseText(s).value, level, style);
  }

  /** No two trees share a text, whatever the levels and styles they are written in. */
  lemma PrintIsInjective(a: Json, b: Json, la: nat, lb: nat, sa: Style, sb: Style)
    requires WellFormed(a, 0) && PrintableTree(a) && WellFormed(b, 0) && PrintableTree(b)
    requires Print(a, la, sa) == Print(b, lb, sb)
    ensures a == b
  {
    RoundTrip(a, la, sa);
    RoundTrip(b, lb, sb);
  }
}
