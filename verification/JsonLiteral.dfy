/**
 String literals as sequences of spelled characters (RFC 8259 section 7): parson takes
 exactly these, for the bytes that they spell.
 */
module JsonLiteral {
  import opened CString
  import opened JsonString
  import Utf8

  /**
   A character as it stands between the quotes: the byte itself, a backslash and a letter,
   four hexadecimal digits, or the digits of a surrogate pair.
   */
  datatype Char =
    | Raw(c: byte)
    | Short(letter: byte, c: byte)
    | Digits(cp: nat, digits: bytes)
    | Pair(cp: nat, lead: bytes, trail: bytes)
  {
    function Text(): bytes {
      match this
      case Raw(c) => [c]
      case Short(letter, _) => [Byte('\\'), letter]
      case Digits(_, digits) => [Byte('\\'), Byte('u')] + digits
      case Pair(_, lead, trail) => [Byte('\\'), Byte('u')] + lead + [Byte('\\'), Byte('u')] + trail
    }

    /** A surrogate pair stands for its code point as in section 2.1 of RFC 2781. */
    ghost predicate Legal() {
      match this
      case Raw(c) => c >= 0x20 && c != Byte('"') && c != Byte('\\')
      case Short(letter, c) => ShortForm(letter, c)
      case Digits(cp, digits) => cp <= 0xFFFF && !(0xD800 <= cp <= 0xDFFF) && Spells(digits, cp)
      case Pair(cp, lead, trail) =>
        && 0x10000 <= cp <= 0x10FFFF
        && Spells(lead, 0xD800 + (cp - 0x10000) / 0x400) && Spells(trail, 0xDC00 + (cp - 0x10000) % 0x400)
    }

    /** The bytes the character stands for. */
    function Value(): bytes
      requires Legal()
    {
      match this
      case Raw(c) => [c]
      case Short(_, c) => [c]
      case Digits(cp, _) => Utf8.Encode(cp)
      case Pair(cp, _, _) => Utf8.Encode(cp)
    }
  }

  /** The two-character escapes of RFC 8259 section 7. */
  predicate ShortForm(letter: byte, c: byte) {
    || (letter == Byte('"') && c == 0x22) || (letter == Byte('\\') && c == 0x5C) || (letter == Byte('/') && c == 0x2F)
    || (letter == Byte('b') && c == 0x08) || (letter == Byte('f') && c == 0x0C) || (letter == Byte('n') && c == 0x0A)
    || (letter == Byte('r') && c == 0x0D) || (letter == Byte('t') && c == 0x09)
  }

  /** `c` is the hexadecimal digit `d`, in either case. */
  predicate HexOf(c: byte, d: nat) {
    if d < 10 then c == 0x30 + d else d < 16 && (c == 0x41 + (d - 10) || c == 0x61 + (d - 10))
  }

  predicate Spells(digits: bytes, n: nat) {
    |digits| == 4 && HexOf(digits[0], n / 4096) && HexOf(digits[1], n / 256 % 16) && HexOf(digits[2], n / 16 % 16)
    && HexOf(digits[3], n % 16)
  }

  ghost predicate AllLegal(chars: seq<Char>) {
    forall i | 0 <= i < |chars| :: chars[i].Legal()
  }

  function TextOf(chars: seq<Char>): bytes {
    if chars == [] then [] else chars[0].Text() + TextOf(chars[1..])
  }

  ghost function ValueOf(chars: seq<Char>): bytes
    requires AllLegal(chars)
  {
    if chars == [] then [] else chars[0].Value() + ValueOf(chars[1..])
  }

  function Literal(chars: seq<Char>): bytes {
    [Byte('"')] + TextOf(chars) + [Byte('"')]
  }

  // ----- one character -----

  lemma HexDigitIsRead(c: byte, d: nat)
    ensures HexCharToInt(c) == Some(d) <==> HexOf(c, d)
  {
  }

  lemma DivMod16(q: nat, r: nat)
    requires r < 16
    ensures (q * 16 + r) / 16 == q && (q * 16 + r) % 16 == r
  {
  }

  lemma Places(n: nat)
    ensures n / 256 == n / 16 / 16 && n / 4096 == n / 16 / 16 / 16
  {
  }

  lemma FourDigits(a: nat, b: nat, c: nat, d: nat)
    requires a < 16 && b < 16 && c < 16 && d < 16
    ensures var n := a * 4096 + b * 256 + c * 16 + d;
            n / 4096 == a && n / 256 % 16 == b && n / 16 % 16 == c && n % 16 == d
  {
    var two := a * 16 + b;
    var three := two * 16 + c;
    var n := three * 16 + d;
    DivMod16(three, d);
    DivMod16(two, c);
    DivMod16(a, b);
    Places(n);
    assert n == a * 4096 + b * 256 + c * 16 + d;
  }

  lemma DigitsOf(n: nat)
    requires n <= 0xFFFF
    ensures n / 4096 < 16 && n == n / 4096 * 4096 + n / 256 % 16 * 256 + n / 16 % 16 * 16 + n % 16
  {
    Places(n);
  }

  lemma SpelledHex4(s: bytes, n: nat)
    requires |s| >= 4 && n <= 0xFFFF && Spells(s[..4], n)
    ensures Hex4(s) == Some(n)
  {
    DigitsOf(n);
    HexDigitIsRead(s[0], n / 4096);
    HexDigitIsRead(s[1], n / 256 % 16);
    HexDigitIsRead(s[2], n / 16 % 16);
    HexDigitIsRead(s[3], n % 16);
    hide HexOf, HexCharToInt;
  }

  lemma Hex4IsSpelled(s: bytes)
    requires Hex4(s).Some?
    ensures |s| >= 4 && Hex4(s).value <= 0xFFFF && Spells(s[..4], Hex4(s).value)
  {
    var a, b, c, d := HexCharToInt(s[0]).value, HexCharToInt(s[1]).value, HexCharToInt(s[2]).value,
                      HexCharToInt(s[3]).value;
    HexDigitIsRead(s[0], a);
    HexDigitIsRead(s[1], b);
    HexDigitIsRead(s[2], c);
    HexDigitIsRead(s[3], d);
    hide HexOf, HexCharToInt;
    FourDigits(a, b, c, d);
  }

  lemma PairOf(k: nat)
    requires k <= 0xFFFFF
    ensures 0xD800 <= 0xD800 + k / 0x400 <= 0xDBFF && 0xDC00 <= 0xDC00 + k % 0x400 <= 0xDFFF
    ensures SurrogatePair(0xD800 + k / 0x400, 0xDC00 + k % 0x400) == 0x10000 + k
  {
  }

  lemma PairParts(lead: nat, trail: nat)
    requires 0xD800 <= lead <= 0xDBFF && 0xDC00 <= trail <= 0xDFFF
    ensures var k := SurrogatePair(lead, trail) - 0x10000;
            0 <= k <= 0xFFFFF && lead == 0xD800 + k / 0x400 && trail == 0xDC00 + k % 0x400
  {
    var a, b := lead - 0xD800, trail - 0xDC00;
    assert (a * 0x400 + b) / 0x400 == a && (a * 0x400 + b) % 0x400 == b;
  }

  /** A `\u` escape in front of other text. */
  function Escaped(digits: bytes): bytes {
    [Byte('\\'), Byte('u')] + digits
  }

  lemma EscapedIsRead(digits: bytes, n: nat, rest: bytes)
    requires n <= 0xFFFF && Spells(digits, n)
    ensures HexEscape(Escaped(digits) + rest) == Some(n) && (Escaped(digits) + rest)[6..] == rest
  {
    var s := Escaped(digits) + rest;
    assert s[2..] == digits + rest && s[2..][..4] == digits;
    SpelledHex4(s[2..], n);
  }

  lemma CodePointIsDecoded(ch: Char, rest: bytes)
    requires ch.Legal() && (ch.Digits? || ch.Pair?)
    ensures UnicodeEscape(ch.Text() + rest) == Some((ch.cp, |ch.Text()|))
  {
    hide Spells, HexEscape;
    match ch
    case Digits(cp, digits) => EscapedIsRead(digits, cp, rest);
    case Pair(cp, lead, trail) =>
      var k := cp - 0x10000;
      PairOf(k);
      assert ch.Text() + rest == Escaped(lead) + (Escaped(trail) + rest);
      SpelledLength(lead, 0xD800 + k / 0x400);
      SpelledLength(trail, 0xDC00 + k % 0x400);
      EscapedIsRead(lead, 0xD800 + k / 0x400, Escaped(trail) + rest);
      EscapedIsRead(trail, 0xDC00 + k % 0x400, rest);
  }

  lemma SpelledLength(digits: bytes, n: nat)
    requires Spells(digits, n)
    ensures |digits| == 4
  {
  }

  /** Every character is decoded to the bytes it stands for, to the end of its spelling. */
  lemma CharIsDecoded(ch: Char, rest: bytes)
    requires ch.Legal()
    ensures DecodeUnit(ch.Text() + rest) == Some(Unit(ch.Value(), |ch.Text()|))
  {
    var s := ch.Text() + rest;
    if ch.Digits? || ch.Pair? {
      CodePointIsDecoded(ch, rest);
      assert s[0] == BACKSLASH && s[1] == LETTER_U;
      hide UnicodeEscape, Spells;
    } else {
      assert s[0] == ch.Text()[0] && (ch.Short? ==> s[1] == ch.letter);
    }
  }

  lemma EscapeIsSpelled(s: bytes)
    requires HexEscape(s).Some?
    ensures |s| >= 6 && s[..6] == Escaped(s[2..6]) && Spells(s[2..6], HexEscape(s).value)
  {
    Hex4IsSpelled(s[2..]);
    assert s[2..][..4] == s[2..6];
  }

  lemma DecodedCodePoint(s: bytes) returns (ch: Char)
    requires UnicodeEscape(s).Some?
    ensures ch.Legal() && (ch.Digits? || ch.Pair?)
    ensures UnicodeEscape(s) == Some((ch.cp, |ch.Text()|)) && ch.Text() == s[..|ch.Text()|]
  {
    hide Spells, HexEscape, SurrogatePair;
    var (cp, len) := UnicodeEscape(s).value;
    EscapeIsSpelled(s);
    if len == 6 {
      ch := Digits(cp, s[2..6]);
    } else {
      var lead, trail := HexEscape(s).value, HexEscape(s[6..]).value;
      EscapeIsSpelled(s[6..]);
      PairParts(lead, trail);
      assert s[6..][2..6] == s[8..12] && s[..12] == s[..6] + s[6..][..6];
      ch := Pair(cp, s[2..6], s[8..12]);
    }
  }

  /** What is decoded is the spelling of a character. */
  lemma DecodedIsChar(s: bytes) returns (ch: Char)
    requires s != [] && s[0] != QUOTE && DecodeUnit(s).Some?
    ensures ch.Legal() && DecodeUnit(s) == Some(Unit(ch.Value(), |ch.Text()|))
    ensures ch.Text() == s[..|ch.Text()|]
  {
    if s[0] != BACKSLASH {
      ch := Raw(s[0]);
    } else if s[1] == LETTER_U {
      ch := DecodedCodePoint(s);
    } else {
      ch := Short(s[1], SimpleEscape(s[1]).value);
    }
  }

  // ----- whole literals -----

  lemma {:induction false} LiteralIsDecoded(chars: seq<Char>)
    requires AllLegal(chars)
    ensures Unescape(TextOf(chars)) == Some(ValueOf(chars))
  {
    if chars != [] {
      var t, rest := chars[0].Text(), TextOf(chars[1..]);
      CharIsDecoded(chars[0], rest);
      LiteralIsDecoded(chars[1..]);
      assert (t + rest)[|t|..] == rest && t != [];
      hide DecodeUnit;
    }
  }

  lemma SpelledIsPlain(digits: bytes, n: nat)
    requires Spells(digits, n)
    ensures forall i | 0 <= i < |digits| :: digits[i] != QUOTE && digits[i] != BACKSLASH && digits[i] != NUL
  {
  }

  lemma ScanOverEscaped(s: bytes, p: nat, digits: bytes, n: nat)
    requires At(s, p, Escaped(digits)) && Spells(digits, n)
    ensures p + 6 <= |s| && ClosingQuote(s, p) == ClosingQuote(s, p + 6)
  {
    SpelledIsPlain(digits, n);
    AtConcat(s, p, [BACKSLASH, LETTER_U], digits);
    AtIndex(s, p, Escaped(digits), 0);
    AtIndex(s, p, Escaped(digits), 1);
    forall i | 0 <= i < 4
      ensures s[p + 2 + i] == digits[i]
    {
      AtIndex(s, p + 2, digits, i);
    }
    assert forall i | p + 2 <= i < p + 6 :: s[i] == digits[i - (p + 2)];
    hide ClosingQuote, Spells;
    ScanPlain(s, p + 2, 4);
    ScanEscape(s, p);
  }

  /** The scanner walks over every character. */
  lemma ScanOverChar(s: bytes, p: nat, ch: Char)
    requires At(s, p, ch.Text()) && ch.Legal()
    ensures p + |ch.Text()| <= |s| && ClosingQuote(s, p) == ClosingQuote(s, p + |ch.Text()|)
  {
    match ch
    case Raw(c) => AtIndex(s, p, [c], 0);
    case Short(letter, _) =>
      AtIndex(s, p, ch.Text(), 0);
      AtIndex(s, p, ch.Text(), 1);
    case Digits(cp, digits) => ScanOverEscaped(s, p, digits, cp);
    case Pair(cp, lead, trail) =>
      assert ch.Text() == Escaped(lead) + Escaped(trail);
      AtConcat(s, p, Escaped(lead), Escaped(trail));
      ScanOverEscaped(s, p, lead, 0xD800 + (cp - 0x10000) / 0x400);
      ScanOverEscaped(s, p + 6, trail, 0xDC00 + (cp - 0x10000) % 0x400);
  }

  lemma TextHead(chars: seq<Char>, rest: bytes)
    requires chars != [] && AllLegal(chars)
    ensures TextOf(chars) + rest == chars[0].Text() + (TextOf(chars[1..]) + rest)
    ensures |TextOf(chars)| == |chars[0].Text()| + |TextOf(chars[1..])|
    ensures chars[0].Legal() && AllLegal(chars[1..])
  {
    hide Char.Text, Char.Legal;
  }

  lemma ScanNothing(s: bytes, p: nat)
    requires At(s, p, TextOf([]) + [QUOTE])
    ensures TextOf([]) == [] && p < |s| && ClosingQuote(s, p) == Some(p)
  {
    AtIndex(s, p, [QUOTE], 0);
    AtTheQuote(s, p);
  }

  lemma {:induction false} ScanOverChars(s: bytes, p: nat, chars: seq<Char>)
    requires AllLegal(chars) && At(s, p, TextOf(chars) + [QUOTE])
    ensures p + |TextOf(chars)| < |s| && ClosingQuote(s, p) == Some(p + |TextOf(chars)|)
    decreases |chars|
  {
    hide *;
    AtFits(s, p, TextOf(chars) + [QUOTE]);
    if chars == [] {
      ScanNothing(s, p);
    } else {
      var t, rest := chars[0].Text(), chars[1..];
      TextHead(chars, [QUOTE]);
      AtConcat(s, p, t, TextOf(rest) + [QUOTE]);
      ScanOverChar(s, p, chars[0]);
      ScanOverChars(s, p + |t|, rest);
    }
  }

  lemma AtFits(s: bytes, p: nat, t: bytes)
    requires At(s, p, t)
    ensures p + |t| <= |s|
  {
  }

  lemma AtTheQuote(s: bytes, p: nat)
    requires p < |s| && s[p] == QUOTE
    ensures ClosingQuote(s, p) == Some(p)
  {
  }

  /** Every literal, wherever it stands, is read as the bytes that it spells, to its closing quote. */
  lemma LiteralIsRead(s: bytes, p: nat, chars: seq<Char>)
    requires AllLegal(chars) && At(s, p, Literal(chars))
    ensures p <= |s| && QuotedString(s, p) == Some((ValueOf(chars), p + |Literal(chars)|))
  {
    hide ClosingQuote, Unescape, QuotedString, TextOf, ValueOf, AllLegal, At;
    QuotedParts(s, p, TextOf(chars));
    ScanOverChars(s, p + 1, chars);
    LiteralIsDecoded(chars);
    QuotedStringFrom(s, p, p + 1 + |TextOf(chars)|, ValueOf(chars));
  }

  lemma UnescapeHead(t: bytes)
    requires t != [] && Unescape(t).Some?
    ensures DecodeUnit(t).Some?
    ensures var u := DecodeUnit(t).value;
            Unescape(t[u.len..]).Some? && Unescape(t).value == u.out + Unescape(t[u.len..]).value
  {
    hide DecodeUnit;
  }

  lemma Cons(ch: Char, rest: seq<Char>)
    requires ch.Legal() && AllLegal(rest)
    ensures AllLegal([ch] + rest)
    ensures TextOf([ch] + rest) == ch.Text() + TextOf(rest) && ValueOf([ch] + rest) == ch.Value() + ValueOf(rest)
  {
    assert ([ch] + rest)[1..] == rest;
    hide Char.Text, Char.Value, Char.Legal;
  }

  lemma {:induction false} CharsFound(s: bytes, i: nat, end: nat) returns (chars: seq<Char>)
    requires i <= end < |s| && ClosingQuote(s, i) == Some(end) && Unescape(s[i..end]).Some?
    ensures AllLegal(chars) && TextOf(chars) == s[i..end] && ValueOf(chars) == Unescape(s[i..end]).value
    decreases end - i
  {
    hide *;
    if i == end {
      chars := NoChars(s, i);
    } else {
      UnitStaysInside(s, i, end);
      NoQuoteInside(s, i, end);
      var t := s[i..end];
      UnescapeHead(t);
      var ch := DecodedIsChar(t);
      var n := i + |ch.Text()|;
      SliceAgain(s, i, n, end);
      var rest := CharsFound(s, n, end);
      Cons(ch, rest);
      chars := [ch] + rest;
    }
  }

  lemma NoChars(s: bytes, i: nat) returns (chars: seq<Char>)
    requires i <= |s|
    ensures AllLegal(chars) && TextOf(chars) == s[i..i] && Unescape(s[i..i]) == Some(ValueOf(chars))
  {
    chars := [];
  }

  lemma SliceAgain(s: bytes, i: nat, n: nat, end: nat)
    requires i <= n <= end <= |s|
    ensures var t := s[i..end];
            t[n - i..] == s[n..end] && t == t[..n - i] + t[n - i..]
  {
  }

  lemma NoQuoteInside(s: bytes, i: nat, end: nat)
    requires i < end < |s| && ClosingQuote(s, i) == Some(end)
    ensures s[i] != QUOTE
  {
  }

  lemma QuotedStringEnds(s: bytes, p: nat) returns (q: nat)
    requires p <= |s| && QuotedString(s, p).Some?
    ensures p < q < |s| && s[p] == QUOTE && s[q] == QUOTE && ClosingQuote(s, p + 1) == Some(q)
    ensures Unescape(s[p + 1..q]) == Some(QuotedString(s, p).value.0) && QuotedString(s, p).value.1 == q + 1
  {
    hide ClosingQuote, Unescape;
    q := ClosingQuote(s, p + 1).value;
  }

  /** Whatever is read as a string is a literal that spells it. */
  lemma ReadIsLiteral(s: bytes, p: nat) returns (chars: seq<Char>)
    requires p <= |s| && QuotedString(s, p).Some?
    ensures AllLegal(chars) && Literal(chars) == s[p..QuotedString(s, p).value.1]
    ensures ValueOf(chars) == QuotedString(s, p).value.0
  {
    hide ClosingQuote, Unescape, QuotedString, AllLegal, TextOf, ValueOf;
    var q := QuotedStringEnds(s, p);
    chars := CharsFound(s, p + 1, q);
    assert s[p..q + 1] == [QUOTE] + s[p + 1..q] + [QUOTE];
  }
}
