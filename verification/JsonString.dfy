/**
 JSON string literals: what parson writes between two quotes (RFC 8259 section 7),
 how it finds the closing quote, and how it decodes what lies between.
 */
module JsonString {
  import opened CString
  import Utf8

  // ----- writing -----

  const LETTER_U: byte := 0x75
  const LETTER_B: byte := 0x62
  const LETTER_F: byte := 0x66
  const LETTER_N: byte := 0x6E
  const LETTER_R: byte := 0x72
  const LETTER_T: byte := 0x74

  /** One lower-case hexadecimal digit. */
  function HexDigit(d: nat): byte
    requires d < 16
  {
    if d < 10 then 0x30 + d else 0x61 + d - 10
  }

  /** The text `json_serialize_string` writes for one byte. */
  function EscapeByte(c: byte, escapeSlashes: bool): (r: bytes)
    ensures 1 <= |r| <= 6
  {
    if c == QUOTE || c == BACKSLASH then [BACKSLASH, c]
    else if c == 0x08 then [BACKSLASH, LETTER_B]
    else if c == 0x0C then [BACKSLASH, LETTER_F]
    else if c == 0x0A then [BACKSLASH, LETTER_N]
    else if c == 0x0D then [BACKSLASH, LETTER_R]
    else if c == 0x09 then [BACKSLASH, LETTER_T]
    else if c < 0x20 then [BACKSLASH, LETTER_U, ZERO, ZERO, HexDigit(c / 16), HexDigit(c % 16)]
    else if c == SLASH && escapeSlashes then [BACKSLASH, SLASH]
    else [c]
  }

  function Escape(chars: bytes, escapeSlashes: bool): (r: bytes)
    ensures |chars| <= |r|
  {
    if chars == [] then []
    else EscapeByte(chars[0], escapeSlashes) + Escape(chars[1..], escapeSlashes)
  }

  function Quoted(chars: bytes, escapeSlashes: bool): bytes {
    [QUOTE] + Escape(chars, escapeSlashes) + [QUOTE]
  }

  // ----- finding the closing quote -----

  /** `skip_quotes` behind the opening quote: the position of the closing one. */
  function ClosingQuote(s: bytes, p: nat): (r: Option<nat>)
    requires p <= |s|
    ensures r.Some? ==> p <= r.value < |s| && s[r.value] == QUOTE
    decreases |s| - p
  {
    var c := Peek(s, p);
    if c == QUOTE then Some(p)
    else if c == NUL then None
    else if c == BACKSLASH then
      if Peek(s, p + 1) == NUL then None else ClosingQuote(s, p + 2)
    else ClosingQuote(s, p + 1)
  }

  // ----- decoding -----

  function HexCharToInt(c: byte): (r: Option<nat>)
    ensures r.Some? ==> r.value < 16
  {
    if ZERO <= c <= NINE then Some(c as int - 0x30)
    else if 0x61 <= c <= 0x66 then Some(c as int - 0x61 + 10)
    else if 0x41 <= c <= 0x46 then Some(c as int - 0x41 + 10)
    else None
  }

  /** Four hexadecimal digits at the front of `s`. */
  function Hex4(s: bytes): (r: Option<nat>)
    ensures r.Some? ==> r.value <= 0xFFFF && |s| >= 4
  {
    if |s| < 4 then None
    else
      match (HexCharToInt(s[0]), HexCharToInt(s[1]), HexCharToInt(s[2]), HexCharToInt(s[3]))
      case (Some(a), Some(b), Some(c), Some(d)) => Some(a * 4096 + b * 256 + c * 16 + d)
      case _ => None
  }

  /** One decoded unit of a string literal: the bytes it stands for and the length of its spelling. */
  datatype Unit = Unit(out: bytes, len: nat)

  /** The code point a surrogate pair stands for (RFC 2781 section 2.2). */
  function SurrogatePair(lead: nat, trail: nat): nat
    requires 0xD800 <= lead <= 0xDBFF && 0xDC00 <= trail <= 0xDFFF
  {
    0x10000 + (lead - 0xD800) * 0x400 + (trail - 0xDC00)
  }

  /** The four hexadecimal digits of a `\uXXXX` escape at the front of `s`. */
  function HexEscape(s: bytes): (r: Option<nat>)
    ensures r.Some? ==> r.value <= 0xFFFF && |s| >= 6
  {
    if |s| < 2 || s[0] != BACKSLASH || s[1] != LETTER_U then None else Hex4(s[2..])
  }

  /** The code point and length of the `\uXXXX` escape or surrogate pair at the front of `s`. */
  function UnicodeEscape(s: bytes): (r: Option<(nat, nat)>)
    ensures r.Some? ==> Utf8.Scalar(r.value.0) && 6 <= r.value.1 <= |s|
  {
    match HexEscape(s)
    case None => None
    case Some(cp) =>
      if !(0xD800 <= cp <= 0xDFFF) then Some((cp, 6))
      else if cp > 0xDBFF then None
      else
        match HexEscape(s[6..])
        case None => None
        case Some(trail) =>
          if 0xDC00 <= trail <= 0xDFFF then Some((SurrogatePair(cp, trail), 12)) else None
  }

  /** The byte a two-character escape stands for. */
  function SimpleEscape(c: byte): Option<byte> {
    if c == QUOTE || c == BACKSLASH || c == SLASH then Some(c)
    else if c == LETTER_B then Some(0x08)
    else if c == LETTER_F then Some(0x0C)
    else if c == LETTER_N then Some(0x0A)
    else if c == LETTER_R then Some(0x0D)
    else if c == LETTER_T then Some(0x09)
    else None
  }

  /** The unit at the front of a literal's contents; None where RFC 8259 section 7 allows none. */
  function DecodeUnit(s: bytes): (r: Option<Unit>)
    requires s != []
    ensures r.Some? ==> 1 <= |r.value.out| <= r.value.len <= |s|
  {
    if s[0] == BACKSLASH then
      if |s| < 2 then None
      else if s[1] == LETTER_U then
        match UnicodeEscape(s)
        case None => None
        case Some((cp, len)) => Some(Unit(Utf8.Encode(cp), len))
      else
        match SimpleEscape(s[1])
        case None => None
        case Some(c) => Some(Unit([c], 2))
    else if s[0] < 0x20 then None
    else Some(Unit([s[0]], 1))
  }

  function Unescape(s: bytes): (r: Option<bytes>)
    ensures r.Some? ==> |r.value| <= |s|
    decreases |s|
  {
    if s == [] then Some([])
    else
      match DecodeUnit(s)
      case None => None
      case Some(Unit(out, len)) =>
        match Unescape(s[len..])
        case None => None
        case Some(rest) => Some(out + rest)
  }

  // ----- writing and decoding undo each other -----

  lemma EscapedByteIsAUnit(c: byte, escapeSlashes: bool, rest: bytes)
    ensures DecodeUnit(EscapeByte(c, escapeSlashes) + rest) == Some(Unit([c], |EscapeByte(c, escapeSlashes)|))
  {
    var e := EscapeByte(c, escapeSlashes);
    var s := e + rest;
    assert s[0] == e[0];
    if |e| == 6 {
      assert s[2..][0] == ZERO && s[2..][1] == ZERO;
      assert s[2..][2] == HexDigit(c / 16) && s[2..][3] == HexDigit(c % 16);
      assert Hex4(s[2..]) == Some(c as int);
    }
  }

  /** Every byte string, NUL and bytes above 0x7F included, survives writing and decoding. */
  lemma {:induction false} UnescapeEscape(chars: bytes, escapeSlashes: bool)
    ensures Unescape(Escape(chars, escapeSlashes)) == Some(chars)
  {
    if chars != [] {
      var e := EscapeByte(chars[0], escapeSlashes);
      var rest := Escape(chars[1..], escapeSlashes);
      EscapedByteIsAUnit(chars[0], escapeSlashes, rest);
      assert (e + rest)[|e|..] == rest;
      UnescapeEscape(chars[1..], escapeSlashes);
      assert [chars[0]] + chars[1..] == chars;
    }
  }

  /** The quote written behind an escaped string is the one the scanner stops at. */
  lemma {:induction false} ScanEscaped(s: bytes, p: nat, chars: bytes, escapeSlashes: bool)
    requires At(s, p, Escape(chars, escapeSlashes) + [QUOTE])
    ensures p <= |s| && ClosingQuote(s, p) == Some(p + |Escape(chars, escapeSlashes)|)
    decreases |chars|
  {
    hide EscapeByte;
    if chars == [] {
      AtIndex(s, p, [QUOTE], 0);
    } else {
      var e := EscapeByte(chars[0], escapeSlashes);
      var rest := Escape(chars[1..], escapeSlashes) + [QUOTE];
      assert Escape(chars, escapeSlashes) + [QUOTE] == e + rest;
      AtConcat(s, p, e, rest);
      ScanEscaped(s, p + |e|, chars[1..], escapeSlashes);
      ScanOverEscapedByte(s, p, chars[0], escapeSlashes);
    }
  }

  /** The scanner walks over characters that are neither quote, backslash nor NUL. */
  lemma {:induction false} ScanPlain(s: bytes, p: nat, n: nat)
    requires p + n <= |s|
    requires forall i | p <= i < p + n :: s[i] != QUOTE && s[i] != BACKSLASH && s[i] != NUL
    ensures ClosingQuote(s, p) == ClosingQuote(s, p + n)
    decreases n
  {
    if n > 0 {
      ScanPlain(s, p + 1, n - 1);
    }
  }

  lemma ScanEscape(s: bytes, p: nat)
    requires p + 1 < |s| && s[p] == BACKSLASH && s[p + 1] != NUL
    ensures ClosingQuote(s, p) == ClosingQuote(s, p + 2)
  {
  }

  /**
   An escape is a backslash and a character that is no NUL; what follows, or stands
   alone, means nothing to the scanner.
   */
  lemma EscapeForm(c: byte, escapeSlashes: bool)
    ensures var e := EscapeByte(c, escapeSlashes);
            var plain := if e[0] == BACKSLASH then 2 else 0;
            && (plain == 2 ==> |e| >= 2 && e[1] != NUL)
            && forall i | plain <= i < |e| :: e[i] != QUOTE && e[i] != BACKSLASH && e[i] != NUL
  {
  }

  lemma ScanOverEscapedByte(s: bytes, p: nat, c: byte, escapeSlashes: bool)
    requires At(s, p, EscapeByte(c, escapeSlashes))
    ensures ClosingQuote(s, p) == ClosingQuote(s, p + |EscapeByte(c, escapeSlashes)|)
  {
    hide ClosingQuote, EscapeByte;
    EscapeForm(c, escapeSlashes);
    var e := EscapeByte(c, escapeSlashes);
    forall i | 0 <= i < |e|
      ensures s[p + i] == e[i]
    {
      AtIndex(s, p, e, i);
    }
    var plain := if e[0] == BACKSLASH then 2 else 0;
    assert forall i | p + plain <= i < p + |e| :: s[i] == e[i - p];
    ScanPlain(s, p + plain, |e| - plain);
    if plain == 2 {
      ScanEscape(s, p);
    }
  }

  // ----- the scanner and the decoder agree -----

  /**
   Between the quotes the scanner delimited, decoding never needs to know where the
   literal ends: no escape and no surrogate pair reaches over the closing quote, and
   behind every unit the scanner still finds the same quote.
   */
  lemma UnitStaysInside(s: bytes, i: nat, end: nat)
    requires i < end < |s| && ClosingQuote(s, i) == Some(end)
    ensures DecodeUnit(s[i..end]) == DecodeUnit(s[i..])
    ensures DecodeUnit(s[i..]).Some? ==>
              i + DecodeUnit(s[i..]).value.len <= end
              && ClosingQuote(s, i + DecodeUnit(s[i..]).value.len) == Some(end)
  {
    if s[i] == BACKSLASH && s[i + 1] == LETTER_U {
      UnicodeEscapeStaysInside(s, i, end);
    }
  }

  lemma UnicodeEscapeStaysInside(s: bytes, i: nat, end: nat)
    requires i + 1 < end < |s| && ClosingQuote(s, i) == Some(end)
    requires s[i] == BACKSLASH && s[i + 1] == LETTER_U
    ensures UnicodeEscape(s[i..end]) == UnicodeEscape(s[i..])
    ensures UnicodeEscape(s[i..]).Some? ==>
              i + UnicodeEscape(s[i..]).value.1 <= end
              && ClosingQuote(s, i + UnicodeEscape(s[i..]).value.1) == Some(end)
  {
    HexEscapeStaysInside(s, i, end);
    if HexEscape(s[i..]).Some? {
      HexEscapeStaysInside(s, i + 6, end);
      assert s[i..][6..] == s[i + 6..] && s[i..end][6..] == s[i + 6..end];
    }
  }

  lemma HexEscapeStaysInside(s: bytes, i: nat, end: nat)
    requires i <= end < |s| && ClosingQuote(s, i) == Some(end)
    ensures HexEscape(s[i..end]) == HexEscape(s[i..])
    ensures HexEscape(s[i..]).Some? ==> i + 6 <= end && ClosingQuote(s, i + 6) == Some(end)
  {
    if i + 1 < end && s[i] == BACKSLASH && s[i + 1] == LETTER_U {
      assert ClosingQuote(s, i + 2) == Some(end);
      Hex4StaysInside(s, i + 2, end);
      assert s[i..][2..] == s[i + 2..] && s[i..end][2..] == s[i + 2..end];
    }
  }

  lemma Hex4StaysInside(s: bytes, p: nat, end: nat)
    requires p <= end < |s| && ClosingQuote(s, p) == Some(end)
    ensures Hex4(s[p..end]) == Hex4(s[p..])
    ensures Hex4(s[p..]).Some? ==> p + 4 <= end && ClosingQuote(s, p + 4) == Some(end)
  {
    var h := Hex4(s[p..]);
    if h.Some? {
      assert forall k | 0 <= k < 4 :: s[p + k] == s[p..][k] && HexCharToInt(s[p + k]).Some?;
      ScanPlain(s, p, 4);
    }
  }

  // ----- decoding keeps UTF-8 -----

  lemma DropAscii(s: bytes)
    requires s != [] && s[0] < 0x80 && Utf8.Valid(s)
    ensures Utf8.Valid(s[1..])
  {
    var cps :| Utf8.Scalars(cps) && Utf8.EncodeAll(cps) == s;
    assert |Utf8.Encode(cps[0])| == 1;
    assert Utf8.Scalars(cps[1..]) && Utf8.EncodeAll(cps[1..]) == s[1..];
  }

  lemma {:induction false} DropAsciis(s: bytes, n: nat)
    requires n <= |s| && Utf8.Valid(s)
    requires forall i | 0 <= i < n :: s[i] < 0x80
    ensures Utf8.Valid(s[n..])
  {
    if n == 0 {
      assert s[0..] == s;
    } else {
      DropAsciis(s, n - 1);
      var t := s[n - 1..];
      assert t[0] == s[n - 1] && t[1..] == s[n..];
      DropAscii(t);
    }
  }

  lemma UnescapePlain(s: bytes)
    requires s != [] && s[0] >= 0x80 && Unescape(s).Some?
    ensures Unescape(s[1..]).Some? && Unescape(s).value == [s[0]] + Unescape(s[1..]).value
  {
    assert DecodeUnit(s) == Some(Unit([s[0]], 1));
  }

  /** Bytes above 0x7F decode to themselves. */
  lemma {:induction false} UnescapeHigh(s: bytes, n: nat)
    requires n <= |s| && forall i | 0 <= i < n :: s[i] >= 0x80
    requires Unescape(s).Some?
    ensures Unescape(s[n..]).Some? && Unescape(s).value == s[..n] + Unescape(s[n..]).value
    decreases n
  {
    hide Unescape;
    if n == 0 {
      assert s[0..] == s;
    } else {
      UnescapePlain(s);
      var t := s[1..];
      UnescapeHigh(t, n - 1);
      assert t[n - 1..] == s[n..];
      assert [s[0]] + (t[..n - 1] + Unescape(s[n..]).value) == s[..n] + Unescape(s[n..]).value;
    }
  }

  lemma HexEscapeIsAscii(s: bytes)
    requires HexEscape(s).Some?
    ensures forall k | 0 <= k < 6 :: s[k] < 0x80
  {
    assert forall k | 2 <= k < 6 :: s[k] == s[2..][k - 2];
  }

  lemma EscapeIsAscii(s: bytes)
    requires s != [] && s[0] < 0x80 && DecodeUnit(s).Some?
    ensures forall i | 0 <= i < DecodeUnit(s).value.len :: s[i] < 0x80
    ensures Utf8.Valid(DecodeUnit(s).value.out)
  {
    var u := DecodeUnit(s).value;
    if s[0] == BACKSLASH && s[1] == LETTER_U {
      var (cp, len) := UnicodeEscape(s).value;
      assert Utf8.EncodeAll([cp]) == Utf8.Encode(cp) + Utf8.EncodeAll([]);
      assert Utf8.EncodeAll([cp]) == Utf8.Encode(cp);
      HexEscapeIsAscii(s);
      if len == 12 {
        HexEscapeIsAscii(s[6..]);
        assert forall k | 6 <= k < 12 :: s[k] == s[6..][k - 6];
      }
    } else {
      assert u.out[0] < 0x80;
      assert Utf8.EncodeAll([u.out[0]]) == Utf8.Encode(u.out[0]) + Utf8.EncodeAll([]);
      assert Utf8.EncodeAll([u.out[0]]) == u.out;
    }
  }

  /** Decoding a literal whose raw bytes are valid UTF-8 gives valid UTF-8. */
  lemma {:induction false} UnescapeKeepsUtf8(s: bytes)
    requires Utf8.Valid(s) && Unescape(s).Some?
    ensures Utf8.Valid(Unescape(s).value)
    decreases |s|
  {
    hide Utf8.Encode, DecodeUnit;
    if s == [] {
    } else if s[0] < 0x80 {
      var u := DecodeUnit(s).value;
      EscapeIsAscii(s);
      DropAsciis(s, u.len);
      UnescapeKeepsUtf8(s[u.len..]);
      Utf8.ValidConcat(u.out, Unescape(s[u.len..]).value);
    } else {
      var cps :| Utf8.Scalars(cps) && Utf8.EncodeAll(cps) == s;
      var high, rest := Utf8.Encode(cps[0]), Utf8.EncodeAll(cps[1..]);
      assert s == high + rest && s[0] == high[0];
      Utf8.EncodingIsHigh(cps[0]);
      assert Utf8.Scalars(cps[1..]);
      UnescapeHigh(s, |high|);
      assert s[..|high|] == high && s[|high|..] == rest;
      UnescapeKeepsUtf8(rest);
      Utf8.ValidCons(cps[0], Unescape(rest).value);
    }
  }

  // ----- the imperative reader -----

  /** `get_quoted_string` at `p`: the decoded contents and the position behind the closing quote. */
  function QuotedString(s: bytes, p: nat): (r: Option<(bytes, nat)>)
    requires p <= |s|
    ensures r.Some? ==> p + 2 <= r.value.1 <= |s|
  {
    if Peek(s, p) != QUOTE then None
    else
      match ClosingQuote(s, p + 1)
      case None => None
      case Some(q) =>
        match Unescape(s[p + 1..q])
        case None => None
        case Some(chars) => Some((chars, q + 1))
  }

  lemma QuotedParts(s: bytes, p: nat, e: bytes)
    requires At(s, p, [QUOTE] + e + [QUOTE])
    ensures s[p] == QUOTE && At(s, p + 1, e + [QUOTE]) && s[p + 1..p + 1 + |e|] == e
  {
    assert [QUOTE] + e + [QUOTE] == [QUOTE] + (e + [QUOTE]);
    AtConcat(s, p, [QUOTE], e + [QUOTE]);
    AtIndex(s, p, [QUOTE], 0);
    AtConcat(s, p + 1, e, [QUOTE]);
  }

  lemma QuotedStringFrom(s: bytes, p: nat, q: nat, chars: bytes)
    requires p < q < |s| && s[p] == QUOTE && ClosingQuote(s, p + 1) == Some(q)
    requires Unescape(s[p + 1..q]) == Some(chars)
    ensures QuotedString(s, p) == Some((chars, q + 1))
  {
    hide ClosingQuote, Unescape;
  }

  /** Reading back a written literal gives the string and the position behind it. */
  lemma QuotedStringReadsQuoted(s: bytes, p: nat, chars: bytes, escapeSlashes: bool)
    requires At(s, p, Quoted(chars, escapeSlashes))
    ensures p <= |s| && QuotedString(s, p) == Some((chars, p + |Quoted(chars, escapeSlashes)|))
  {
    hide ClosingQuote, Unescape, Escape, QuotedString;
    var e := Escape(chars, escapeSlashes);
    QuotedParts(s, p, e);
    ScanEscaped(s, p + 1, chars, escapeSlashes);
    UnescapeEscape(chars, escapeSlashes);
    QuotedStringFrom(s, p, p + 1 + |e|, chars);
  }

  /** `skip_quotes`: the position behind the closing quote. */
  method SkipQuotes(s: bytes, p: nat) returns (r: Option<nat>)
    requires p <= |s|
    ensures r == if Peek(s, p) != QUOTE then None
                 else match ClosingQuote(s, p + 1) case None => None case Some(q) => Some(q + 1)
  {
    if Peek(s, p) != QUOTE {
      return None;
    }
    var i := p + 1;
    while Peek(s, i) != QUOTE
      invariant p < i <= |s|
      invariant ClosingQuote(s, i) == ClosingQuote(s, p + 1)
      decreases |s| - i
    {
      if Peek(s, i) == NUL {
        return None;
      } else if Peek(s, i) == BACKSLASH {
        i := i + 1;
        if Peek(s, i) == NUL {
          return None;
        }
      }
      i := i + 1;
    }
    return Some(i + 1);
  }

  /** `parse_utf16_hex`: it stops reading at the terminator. */
  method ParseUtf16Hex(s: bytes, p: nat) returns (r: Option<nat>)
    requires p <= |s|
    ensures r == Hex4(s[p..])
  {
    if Peek(s, p) == NUL || Peek(s, p + 1) == NUL || Peek(s, p + 2) == NUL || Peek(s, p + 3) == NUL {
      return None;
    }
    var x1, x2, x3, x4 := HexCharToInt(s[p]), HexCharToInt(s[p + 1]), HexCharToInt(s[p + 2]), HexCharToInt(s[p + 3]);
    if x1.None? || x2.None? || x3.None? || x4.None? {
      return None;
    }
    return Some(x1.value * 4096 + x2.value * 256 + x3.value * 16 + x4.value);
  }

  /** What the output buffer holds after `t` went to position `o`. */
  ghost function Put(b: bytes, o: nat, t: bytes): bytes
    requires o + |t| <= |b|
  {
    b[..o] + t + b[o + |t|..]
  }

  /** The masks of the stores do not cut off any bit of the code point. */
  lemma StoredBytes(cp: nat)
    requires cp <= 0x10FFFF
    ensures Utf8.Encode(cp)
         == if cp < 0x80 then [cp]
            else if cp < 0x800 then [0xC0 + cp / 64 % 32, 0x80 + cp % 64]
            else if cp < 0x10000 then [0xE0 + cp / 4096 % 16, 0x80 + cp / 64 % 64, 0x80 + cp % 64]
            else [0xF0 + cp / 262144 % 8, 0x80 + cp / 4096 % 64, 0x80 + cp / 64 % 64, 0x80 + cp % 64]
  {
    assert cp < 0x800 ==> cp / 64 % 32 == cp / 64;
    assert cp < 0x10000 ==> cp / 4096 % 16 == cp / 4096;
    assert cp / 262144 % 8 == cp / 262144;
  }

  /** The byte stores of `parse_utf16`; the result is the position of the last byte written. */
  method StoreUtf8(out: array<byte>, o: nat, cp: nat) returns (w: nat)
    requires cp <= 0x10FFFF && o + |Utf8.Encode(cp)| <= out.Length
    modifies out
    ensures w == o + |Utf8.Encode(cp)| - 1
    ensures out[..] == Put(old(out[..]), o, Utf8.Encode(cp))
  {
    w := o;
    StoredBytes(cp);
    hide Utf8.Encode;
    if cp < 0x80 {
      out[w] := cp;
    } else if cp < 0x800 {
      out[w] := 0xC0 + cp / 64 % 32;
      out[w + 1] := 0x80 + cp % 64;
      w := w + 1;
    } else if cp < 0x10000 {
      out[w] := 0xE0 + cp / 4096 % 16;
      out[w + 1] := 0x80 + cp / 64 % 64;
      out[w + 2] := 0x80 + cp % 64;
      w := w + 2;
    } else {
      out[w] := 0xF0 + cp / 262144 % 8;
      out[w + 1] := 0x80 + cp / 4096 % 64;
      out[w + 2] := 0x80 + cp / 64 % 64;
      out[w + 3] := 0x80 + cp % 64;
      w := w + 3;
    }
  }

  /**
   The code point `parse_utf16` reads with the cursor `p` at the `u`, and the position
   of the last hexadecimal digit. The terminator stops every read.
   */
  method ReadCodePoint(s: bytes, p: nat) returns (r: Option<(nat, nat)>)
    requires 1 <= p < |s| && s[p - 1] == BACKSLASH && s[p] == LETTER_U
    ensures r == match UnicodeEscape(s[p - 1..]) case None => None case Some((cp, len)) => Some((cp, p - 1 + len - 1))
  {
    hide Hex4;
    assert s[p - 1..][2..] == s[p + 1..];
    var q := p + 1;
    var hex := ParseUtf16Hex(s, q);
    if hex.None? {
      return None;
    }
    var cp := hex.value;
    if cp < 0xD800 || cp > 0xDFFF {
      return Some((cp, q + 3));
    } else if 0xD800 <= cp <= 0xDBFF {
      q := q + 4;
      assert s[p - 1..][6..] == s[q..];
      if Peek(s, q) != BACKSLASH || Peek(s, q + 1) != LETTER_U {
        return None;
      }
      q := q + 2;
      assert s[q - 2..][2..] == s[q..];
      var trail := ParseUtf16Hex(s, q);
      if trail.None? || trail.value < 0xDC00 || trail.value > 0xDFFF {
        return None;
      }
      cp := (cp - 0xD800) % 1024 * 1024 + (trail.value - 0xDC00) % 1024 + 0x10000;
      return Some((cp, q + 3));
    } else {
      return None;
    }
  }

  /**
   `parse_utf16`: `p` is at the `u`, `o` where the first byte goes. On success the
   cursors are left at the last hexadecimal digit and at the last byte written.
   */
  method ParseUtf16(s: bytes, p: nat, end: nat, out: array<byte>, o: nat) returns (ok: bool, q: nat, w: nat)
    requires 1 <= p < end < |s| && s[p - 1] == BACKSLASH && s[p] == LETTER_U
    requires ClosingQuote(s, p - 1) == Some(end)
    requires o + (end - (p - 1)) < out.Length
    modifies out
    ensures ok <==> UnicodeEscape(s[p - 1..end]).Some?
    ensures !ok ==> out[..] == old(out[..])
    ensures ok ==>
              var (cp, len) := UnicodeEscape(s[p - 1..end]).value;
              q == p - 1 + len - 1 && w == o + |Utf8.Encode(cp)| - 1 && w < out.Length
              && out[..] == Put(old(out[..]), o, Utf8.Encode(cp))
  {
    UnicodeEscapeStaysInside(s, p - 1, end);
    var r := ReadCodePoint(s, p);
    if r.None? {
      return false, p, o;
    }
    q := r.value.1;
    w := StoreUtf8(out, o, r.value.0);
    return true, q, w;
  }

  ghost function Prepend(a: bytes, r: Option<bytes>): Option<bytes> {
    match r
    case None => None
    case Some(b) => Some(a + b)
  }

  lemma PrependNothing(a: bytes, r: Option<bytes>)
    requires a == []
    ensures Prepend(a, r) == r
  {
    assert r.Some? ==> a + r.value == r.value;
  }

  lemma UnescapeStep(s: bytes, done: bytes, tail: bytes)
    requires tail != []
    requires Unescape(s) == Prepend(done, Unescape(tail))
    ensures match DecodeUnit(tail)
            case None => Unescape(s) == None
            case Some(u) => Unescape(s) == Prepend(done + u.out, Unescape(tail[u.len..]))
  {
    if DecodeUnit(tail).Some? && Unescape(tail[DecodeUnit(tail).value.len..]).Some? {
      var u := DecodeUnit(tail).value;
      assert done + (u.out + Unescape(tail[u.len..]).value) == done + u.out + Unescape(tail[u.len..]).value;
    }
  }

  /** One round of the loop of `process_string`: the unit at `i` goes to position `o`. */
  method ProcessUnit(s: bytes, i: nat, end: nat, output: array<byte>, o: nat) returns (ok: bool, i': nat, o': nat)
    requires i < end < |s| && ClosingQuote(s, i) == Some(end)
    requires o + (end - i) < output.Length
    modifies output
    ensures ok <==> DecodeUnit(s[i..end]).Some?
    ensures ok ==>
              var u := DecodeUnit(s[i..end]).value;
              i' == i + u.len && o' == o + |u.out| && o' < output.Length
              && output[..o'] == old(output[..o]) + u.out
  {
    i', o' := i, o;
    if s[i'] == BACKSLASH {
      i' := i' + 1;
      var c := Peek(s, i');
      if c == LETTER_U {
        var done, q, w := ParseUtf16(s, i', end, output, o');
        if !done {
          return false, i', o';
        }
        i', o' := q, w;
      } else {
        var simple := SimpleEscape(c);
        if simple.None? {
          return false, i', o';
        }
        output[o'] := simple.value;
      }
    } else if s[i'] < 0x20 {
      return false, i', o';
    } else {
      output[o'] := s[i'];
    }
    o' := o' + 1;
    i' := i' + 1;
    return true, i', o';
  }

  /** `process_string` on the contents `skip_quotes` delimited, decoded into a buffer of the input's size plus one. */
  method ProcessString(s: bytes, start: nat, end: nat) returns (r: Option<bytes>)
    requires start <= end < |s| && ClosingQuote(s, start) == Some(end)
    ensures r == Unescape(s[start..end])
  {
    var output := new byte[end - start + 1];
    var i: nat, o: nat := start, 0;
    PrependNothing(output[..o], Unescape(s[start..end]));
    while Peek(s, i) != NUL && i - start < end - start
      invariant start <= i <= end && o <= i - start < output.Length
      invariant ClosingQuote(s, i) == Some(end)
      invariant Unescape(s[start..end]) == Prepend(output[..o], Unescape(s[i..end]))
      decreases end - i
    {
      UnitStaysInside(s, i, end);
      UnescapeStep(s[start..end], output[..o], s[i..end]);
      var ok, i', o' := ProcessUnit(s, i, end, output, o);
      if !ok {
        return None;
      }
      assert s[i..end][i' - i..] == s[i'..end];
      i, o := i', o';
    }
    assert output[..o] + [] == output[..o];
    output[o] := NUL;
    return Some(output[..o]);
  }

  /** `get_quoted_string`. */
  method GetQuotedString(s: bytes, p: nat) returns (r: Option<(bytes, nat)>)
    requires p <= |s|
    ensures r == QuotedString(s, p)
  {
    var q := SkipQuotes(s, p);
    if q.None? {
      return None;
    }
    var chars := ProcessString(s, p + 1, q.value - 1);
    if chars.None? {
      return None;
    }
    return Some((chars.value, q.value));
  }
}
