/**
 NUL-terminated C strings, modelled as byte sequences.

 A text `s` stands for the characters of a C string; reading one past its last
 byte gives the terminator. `Peek` cannot be called further than that, so every
 verified caller is known never to read beyond the terminating NUL.
 */
module CString {
  type byte = x: int | 0 <= x < 256
  type bytes = seq<byte>

  datatype Option<+T> = None | Some(value: T)

  /** The code of an ASCII character, and the bytes of an ASCII text. */
  function Byte(c: char): (b: byte)
    requires c < 128 as char
    ensures b == c as int
  {
    c as int
  }

  function Ascii(t: string): (r: bytes)
    requires forall i | 0 <= i < |t| :: t[i] < 128 as char
    ensures |r| == |t| && forall i | 0 <= i < |t| :: r[i] == t[i] as int
  {
    seq(|t|, i requires 0 <= i < |t| => Byte(t[i]))
  }

  const NUL: byte := 0x00
  const TAB: byte := 0x09
  const NEWLINE: byte := 0x0A
  const RETURN: byte := 0x0D
  const SPACE: byte := 0x20
  const QUOTE: byte := 0x22
  const COMMA: byte := 0x2C
  const MINUS: byte := 0x2D
  const DOT: byte := 0x2E
  const SLASH: byte := 0x2F
  const ZERO: byte := 0x30
  const NINE: byte := 0x39
  const COLON: byte := 0x3A
  const LBRACKET: byte := 0x5B
  const BACKSLASH: byte := 0x5C
  const RBRACKET: byte := 0x5D
  const LBRACE: byte := 0x7B
  const RBRACE: byte := 0x7D

  /** The character at `p`, or the terminating NUL when `p` is the end of the text. */
  function Peek(s: bytes, p: nat): byte
    requires p <= |s|
  {
    if p < |s| then s[p] else NUL
  }

  /** `isspace` in the C locale. */
  predicate IsSpace(c: byte) {
    c == SPACE || TAB <= c <= RETURN
  }

  predicate IsDigit(c: byte) {
    ZERO <= c <= NINE
  }

  predicate NulFree(s: bytes) {
    forall i | 0 <= i < |s| :: s[i] != NUL
  }

  /** `t` stands in `s` at position `p`. */
  ghost predicate At(s: bytes, p: nat, t: bytes) {
    p + |t| <= |s| && s[p..p + |t|] == t
  }

  lemma AtConcat(s: bytes, p: nat, a: bytes, b: bytes)
    ensures At(s, p, a + b) <==> At(s, p, a) && At(s, p + |a|, b)
  {
    if At(s, p, a + b) {
      assert s[p..p + |a|] == (a + b)[..|a|];
      assert s[p + |a|..p + |a| + |b|] == (a + b)[|a|..];
    }
  }

  lemma AtIndex(s: bytes, p: nat, t: bytes, i: nat)
    requires At(s, p, t) && i < |t|
    ensures s[p + i] == t[i]
  {
    assert s[p..p + |t|][i] == t[i];
  }

  /** The position `SKIP_WHITESPACES` leaves the cursor at. */
  function SkipSpaces(s: bytes, p: nat): (q: nat)
    requires p <= |s|
    ensures p <= q <= |s|
    ensures !IsSpace(Peek(s, q))
    ensures forall i | p <= i < q :: IsSpace(s[i])
    decreases |s| - p
  {
    if IsSpace(Peek(s, p)) then SkipSpaces(s, p + 1) else p
  }

  /** Skipping stops exactly behind a run of white space that a non-space ends. */
  lemma SkipSpacesOver(s: bytes, p: nat, q: nat)
    requires p <= q <= |s|
    requires forall i | p <= i < q :: IsSpace(s[i])
    requires !IsSpace(Peek(s, q))
    ensures SkipSpaces(s, p) == q
  {
  }

  /** The name before the first NUL, as `strlen` sees it. */
  function StrLen(s: bytes): (n: nat)
    ensures n <= |s|
    ensures forall i | 0 <= i < n :: s[i] != NUL
    ensures n < |s| ==> s[n] == NUL
    ensures n == |s| <==> NulFree(s)
  {
    if s == [] || s[0] == NUL then 0 else 1 + StrLen(s[1..])
  }

  /** `strstr` from position `p`: the leftmost place where `t` stands. */
  function Search(s: bytes, p: nat, t: bytes): (r: Option<nat>)
    requires p <= |s|
    ensures r.Some? ==> p <= r.value && At(s, r.value, t) && forall k | p <= k < r.value :: !At(s, k, t)
    ensures r.None? ==> forall k | p <= k :: !At(s, k, t)
    decreases |s| - p
  {
    if p + |t| > |s| then None
    else if s[p..p + |t|] == t then Some(p)
    else Search(s, p + 1, t)
  }

  /** The leftmost place is determined by what it is. */
  lemma SearchIs(s: bytes, p: nat, t: bytes, q: nat)
    requires p <= q <= |s| && At(s, q, t) && forall k | p <= k < q :: !At(s, k, t)
    ensures Search(s, p, t) == Some(q)
  {
  }

  /** Storage with a piece of it overwritten. */
  function Replaced(s: bytes, at: nat, part: bytes): (r: bytes)
    requires at + |part| <= |s|
    ensures |r| == |s|
  {
    s[..at] + part + s[at + |part|..]
  }
}
