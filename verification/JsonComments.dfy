/**
 `remove_comments`: blanking comments out of a text before it is parsed.
 */
module JsonComments {
  import opened CString
  import opened JsonTree
  import opened JsonString
  import opened JsonNumber
  import opened JsonPrint
  import JsonParse
  import JsonRoundTrip
  import JsonGrammar
  import JsonLayout
  import JsonNumeral

  const BLOCK_START: bytes := [SLASH, 0x2A]
  const BLOCK_END: bytes := [0x2A, SLASH]
  const LINE_START: bytes := [SLASH, SLASH]
  const LINE_END: bytes := [NEWLINE]

  function Spaces(n: nat): (r: bytes)
    ensures |r| == n && forall i | 0 <= i < n :: r[i] == SPACE
  {
    seq(n, i => SPACE)
  }

  /** `s` with spaces from `a` up to `b`. */
  function BlankOut(s: bytes, a: nat, b: nat): (r: bytes)
    requires a <= b <= |s|
    ensures |r| == |s|
    ensures forall i | 0 <= i < |s| :: r[i] == if a <= i < b then SPACE else s[i]
  {
    s[..a] + Spaces(b - a) + s[b..]
  }

  /** The text after the comment at `p` is blanked, and the position behind it; None when it is never closed. */
  function BlankComment(s: bytes, p: nat, open: bytes, close: bytes): (r: (bytes, Option<nat>))
    requires p + |open| <= |s| && open != [] && close != []
    ensures |r.0| == |s| && (r.1.Some? ==> p < r.1.value <= |s|)
    ensures forall i | 0 <= i < |s| :: r.0[i] == s[i] || (i >= p && r.0[i] == SPACE)
  {
    var body := p + |open|;
    var t := BlankOut(s, p, body);
    match Search(t, body, close)
    case None => (t, None)
    case Some(e) => (BlankOut(t, body, e + |close|), Some(e + |close|))
  }

  /** The text `remove_comments` leaves when its cursor is at `p`. */
  function Strip(s: bytes, p: nat, inString: bool, escaped: bool, open: bytes, close: bytes): (r: bytes)
    requires p <= |s| && open != [] && close != []
    ensures |r| == |s|
    decreases |s| - p
  {
    var c := Peek(s, p);
    if c == NUL then s
    else if c == BACKSLASH && !escaped then Strip(s, p + 1, inString, true, open, close)
    else if c == QUOTE && !escaped then Strip(s, p + 1, !inString, false, open, close)
    else if !inString && open <= s[p..] then
      var (t, next) := BlankComment(s, p, open, close);
      if next.None? then t else Strip(t, next.value, inString, false, open, close)
    else Strip(s, p + 1, inString, false, open, close)
  }

  /** A pass over the whole text; with an empty token nothing happens. */
  function StripAll(s: bytes, open: bytes, close: bytes): (r: bytes)
    ensures |r| == |s|
  {
    if open == [] || close == [] then s else Strip(s, 0, false, false, open, close)
  }

  /** Bytes are kept or become spaces; nothing moves. */
  lemma {:induction false} StripOnlyBlanks(s: bytes, p: nat, inString: bool, escaped: bool, open: bytes, close: bytes)
    requires p <= |s| && open != [] && close != []
    ensures var r := Strip(s, p, inString, escaped, open, close);
            forall i | 0 <= i < |s| :: r[i] == s[i] || (i >= p && r[i] == SPACE)
    decreases |s| - p
  {
    hide BlankComment, IsSpace;
    var c := Peek(s, p);
    if c == NUL {
    } else if c == BACKSLASH && !escaped {
      StripOnlyBlanks(s, p + 1, inString, true, open, close);
    } else if c == QUOTE && !escaped {
      StripOnlyBlanks(s, p + 1, !inString, false, open, close);
    } else if !inString && open <= s[p..] {
      var (t, next) := BlankComment(s, p, open, close);
      if next.Some? {
        StripOnlyBlanks(t, next.value, inString, false, open, close);
      }
    } else {
      StripOnlyBlanks(s, p + 1, inString, false, open, close);
    }
  }

  // ----- the pass from the front of a text -----

  lemma StripAtNul(s: bytes, p: nat, inString: bool, escaped: bool, open: bytes, close: bytes)
    requires p <= |s| && Peek(s, p) == NUL && open != [] && close != []
    ensures Strip(s, p, inString, escaped, open, close) == s
  {
  }

  /** What one round of the loop does to the cursor and its two flags. */
  lemma StripStep(s: bytes, p: nat, inString: bool, escaped: bool, open: bytes, close: bytes)
    requires p < |s| && s[p] != NUL && open != [] && close != []
    ensures Strip(s, p, inString, escaped, open, close)
         == if s[p] == BACKSLASH && !escaped then Strip(s, p + 1, inString, true, open, close)
            else if s[p] == QUOTE && !escaped then Strip(s, p + 1, !inString, false, open, close)
            else if !inString && open <= s[p..] then
              (var (t, next) := BlankComment(s, p, open, close);
               if next.None? then t else Strip(t, next.value, inString, false, open, close))
            else Strip(s, p + 1, inString, false, open, close)
  {
    hide BlankComment;
  }

  lemma Associative(a: bytes, b: bytes, c: bytes)
    ensures a + (b + c) == a + b + c
  {
  }

  lemma SpacesConcat(m: nat, n: nat)
    ensures Spaces(m) + Spaces(n) == Spaces(m + n)
  {
  }

  lemma AtBehind(a: bytes, b: bytes, k: nat, t: bytes)
    ensures At(a + b, |a| + k, t) <==> At(b, k, t)
  {
    if k + |t| <= |b| {
      assert (a + b)[|a| + k..|a| + k + |t|] == b[k..k + |t|];
    }
  }

  function Moved(next: Option<nat>, n: nat): Option<nat> {
    match next
    case None => None
    case Some(e) => Some(n + e)
  }

  /** Searching sees only what lies behind the place where it starts. */
  lemma SearchBehind(a: bytes, b: bytes, k: nat, t: bytes)
    requires k <= |b|
    ensures Search(a + b, |a| + k, t)
         == Moved(Search(b, k, t), |a|)
  {
    hide Search, At;
    match Search(b, k, t)
    case Some(e) =>
      forall i | |a| + k <= i < |a| + e
        ensures !At(a + b, i, t)
      {
        AtBehind(a, b, i - |a|, t);
      }
      AtBehind(a, b, e, t);
      AtFits(b, e, t);
      SearchIs(a + b, |a| + k, t, |a| + e);
    case None =>
      var found := Search(a + b, |a| + k, t);
      if found.Some? {
        AtBehind(a, b, found.value - |a|, t);
      }
  }

  lemma AtFits(s: bytes, p: nat, t: bytes)
    requires At(s, p, t)
    ensures p + |t| <= |s|
  {
  }

  lemma BlankOutBehind(a: bytes, b: bytes, i: nat, j: nat)
    requires i <= j <= |b|
    ensures BlankOut(a + b, |a| + i, |a| + j) == a + BlankOut(b, i, j)
  {
  }

  lemma BlankCommentBehind(a: bytes, b: bytes, p: nat, open: bytes, close: bytes)
    requires p + |open| <= |b| && open != [] && close != []
    ensures var r := BlankComment(b, p, open, close);
            BlankComment(a + b, |a| + p, open, close) == (a + r.0, Moved(r.1, |a|))
  {
    hide Search, Spaces, BlankOut, At;
    var body := p + |open|;
    var t := BlankOut(b, p, body);
    BlankOutBehind(a, b, p, body);
    SearchBehind(a, t, body, close);
    var e := Search(t, body, close);
    if e.Some? {
      AtFits(t, e.value, close);
      BlankOutBehind(a, t, body, e.value + |close|);
    }
  }

  /** What lies in front of the cursor plays no part. */
  lemma {:induction false} StripBehind(a: bytes, b: bytes, p: nat, inString: bool, escaped: bool,
                                       open: bytes, close: bytes)
    requires p <= |b| && open != [] && close != []
    ensures Strip(a + b, |a| + p, inString, escaped, open, close) == a + Strip(b, p, inString, escaped, open, close)
    decreases |b| - p
  {
    hide BlankComment, Strip;
    if Peek(b, p) == NUL {
      StripAtNul(b, p, inString, escaped, open, close);
      StripAtNul(a + b, |a| + p, inString, escaped, open, close);
    } else {
      StripStep(b, p, inString, escaped, open, close);
      StripStep(a + b, |a| + p, inString, escaped, open, close);
      assert (a + b)[|a| + p..] == b[p..];
      if b[p] == BACKSLASH && !escaped {
        StripBehind(a, b, p + 1, inString, true, open, close);
      } else if b[p] == QUOTE && !escaped {
        StripBehind(a, b, p + 1, !inString, false, open, close);
      } else if !inString && open <= b[p..] {
        BlankCommentBehind(a, b, p, open, close);
        var (t, next) := BlankComment(b, p, open, close);
        if next.Some? {
          StripBehind(a, t, next.value, inString, false, open, close);
        }
      } else {
        StripBehind(a, b, p + 1, inString, false, open, close);
      }
    }
  }

  /** The pass from the front of a text on. */
  function StripFrom(s: bytes, inString: bool, escaped: bool, open: bytes, close: bytes): bytes
    requires open != [] && close != []
  {
    Strip(s, 0, inString, escaped, open, close)
  }

  lemma StripTail(s: bytes, p: nat, inString: bool, escaped: bool, open: bytes, close: bytes)
    requires p <= |s| && open != [] && close != []
    ensures Strip(s, p, inString, escaped, open, close)
         == s[..p] + StripFrom(s[p..], inString, escaped, open, close)
  {
    hide Strip;
    assert s == s[..p] + s[p..];
    StripBehind(s[..p], s[p..], 0, inString, escaped, open, close);
  }

  /** What stands for the comment at the front of a text, and what is left of the text behind it. */
  function BlankedFront(s: bytes, open: bytes, close: bytes): (bytes, Option<nat>)
    requires open <= s
  {
    match Search(s, |open|, close)
    case None => (Spaces(|open|) + s[|open|..], None)
    case Some(e) => (Spaces(e + |close|), Some(e + |close|))
  }

  lemma BlankFront(s: bytes, open: bytes, close: bytes)
    requires open <= s && open != [] && close != []
    ensures var (t, next) := BlankComment(s, 0, open, close);
            var (u, end) := BlankedFront(s, open, close);
            next == end && (next.None? ==> t == u)
            && (next.Some? ==> next.value <= |s| && |t| == |s|
                               && t[..next.value] == u && t[next.value..] == s[next.value..])
  {
    hide Search, Spaces;
    var t := BlankOut(s, 0, |open|);
    var blank, rest := Spaces(|open|), s[|open|..];
    assert t == blank + rest && s == open + rest;
    SearchBehind(blank, rest, 0, close);
    SearchBehind(open, rest, 0, close);
    var e := Search(s, |open|, close);
    if e.Some? {
      var r := BlankOut(t, |open|, e.value + |close|);
      assert r[..e.value + |close|] == Spaces(e.value + |close|);
      assert r[e.value + |close|..] == s[e.value + |close|..];
    }
  }

  /** One round of the loop at the front of a text, and the pass over what follows. */
  lemma StripHead(s: bytes, inString: bool, escaped: bool, open: bytes, close: bytes)
    requires s != [] && s[0] != NUL && open != [] && close != []
    ensures StripFrom(s, inString, escaped, open, close)
         == if s[0] == BACKSLASH && !escaped then [s[0]] + StripFrom(s[1..], inString, true, open, close)
            else if s[0] == QUOTE && !escaped then [s[0]] + StripFrom(s[1..], !inString, false, open, close)
            else if !inString && open <= s then
              (var (t, next) := BlankedFront(s, open, close);
               match next
               case None => t
               case Some(e) => t + StripFrom(s[e..], false, false, open, close))
            else [s[0]] + StripFrom(s[1..], inString, false, open, close)
  {
    hide BlankComment, BlankedFront, Strip;
    StripStep(s, 0, inString, escaped, open, close);
    assert s[0..] == s && s[..1] == [s[0]];
    if s[0] == BACKSLASH && !escaped {
      StripTail(s, 1, inString, true, open, close);
    } else if s[0] == QUOTE && !escaped {
      StripTail(s, 1, !inString, false, open, close);
    } else if !inString && open <= s {
      BlankFront(s, open, close);
      var (t, next) := BlankComment(s, 0, open, close);
      if next.Some? {
        StripTail(t, next.value, false, false, open, close);
      }
    } else {
      StripTail(s, 1, inString, false, open, close);
    }
  }

  // ----- what is blanked and what is not -----

  /** A text cut into string literals, comments, escaped quotation marks and backslashes, and other characters. */
  datatype Piece = Plain(c: byte) | Escaped(c: byte) | Literal(body: bytes) | Comment(body: bytes)
  {
    function Text(open: bytes, close: bytes): bytes {
      match this
      case Plain(c) => [c]
      case Escaped(c) => [BACKSLASH, c]
      case Literal(body) => [QUOTE] + body + [QUOTE]
      case Comment(body) => open + body + close
    }

    /** The text with a comment replaced by as many spaces. */
    function Blanked(open: bytes, close: bytes): bytes {
      if Comment? then Spaces(|open| + |body| + |close|) else Text(open, close)
    }
  }

  function Flatten(pieces: seq<Piece>, open: bytes, close: bytes): bytes {
    if pieces == [] then [] else pieces[0].Text(open, close) + Flatten(pieces[1..], open, close)
  }

  function FlattenBlanked(pieces: seq<Piece>, open: bytes, close: bytes): bytes {
    if pieces == [] then [] else pieces[0].Blanked(open, close) + FlattenBlanked(pieces[1..], open, close)
  }

  predicate QuoteOrBackslash(c: byte) {
    c == QUOTE || c == BACKSLASH
  }

  /** The piece at the front, in front of the rest of the text. */
  ghost predicate LexicalPiece(piece: Piece, rest: bytes, open: bytes, close: bytes) {
    match piece
    case Plain(c) =>
      c != NUL && c != QUOTE && !(open <= [c] + rest)
      && (c == BACKSLASH && rest != [] ==> !QuoteOrBackslash(rest[0]))
    case Escaped(c) => QuoteOrBackslash(c)
    case Literal(body) => ClosingQuote(body + [QUOTE], 0) == Some(|body|)
    case Comment(body) => Search(body + close, 0, close) == Some(|body|)
  }

  /**
   The cut is the lexical one: a literal is closed by its last quote and no earlier, a
   comment by the first closing token behind the opening one, and no comment starts at
   another character.
   */
  ghost predicate Lexical(pieces: seq<Piece>, open: bytes, close: bytes) {
    pieces != [] ==>
      && Lexical(pieces[1..], open, close)
      && LexicalPiece(pieces[0], Flatten(pieces[1..], open, close), open, close)
  }

  /** The opening token starts with a character that has no other meaning. */
  ghost predicate Tokens(open: bytes, close: bytes) {
    open != [] && close != [] && open[0] != NUL && open[0] != QUOTE && open[0] != BACKSLASH
  }

  /**
   Every comment becomes spaces, and not a byte outside the comments changes: what looks
   like a comment inside a string literal is left alone.
   */
  lemma {:induction false} StripBlanksTheComments(pieces: seq<Piece>, open: bytes, close: bytes)
    requires Tokens(open, close) && Lexical(pieces, open, close)
    ensures StripAll(Flatten(pieces, open, close), open, close) == FlattenBlanked(pieces, open, close)
  {
    hide Strip, LexicalPiece;
    if pieces == [] {
      StripAtNul([], 0, false, false, open, close);
    } else {
      StripPiece(pieces[0], Flatten(pieces[1..], open, close), open, close);
      StripBlanksTheComments(pieces[1..], open, close);
    }
  }

  lemma StripPiece(piece: Piece, rest: bytes, open: bytes, close: bytes)
    requires Tokens(open, close) && LexicalPiece(piece, rest, open, close)
    ensures StripAll(piece.Text(open, close) + rest, open, close)
         == piece.Blanked(open, close) + StripAll(rest, open, close)
  {
    hide Strip, ClosingQuote, Search;
    match piece
    case Plain(c) => StripPlain(c, rest, open, close);
    case Escaped(c) => StripEscaped(c, rest, open, close);
    case Literal(body) => StripLiteral(body, rest, open, close);
    case Comment(body) => StripComment(body, rest, open, close);
  }

  lemma StripPlain(c: byte, rest: bytes, open: bytes, close: bytes)
    requires Tokens(open, close) && LexicalPiece(Plain(c), rest, open, close)
    ensures StripAll([c] + rest, open, close) == [c] + StripAll(rest, open, close)
  {
    hide Strip;
    assert ([c] + rest)[1..] == rest;
    StripHead([c] + rest, false, false, open, close);
    if c == BACKSLASH {
      if Peek(rest, 0) == NUL {
        StripAtNul(rest, 0, false, false, open, close);
        StripAtNul(rest, 0, false, true, open, close);
      } else {
        StripHead(rest, false, false, open, close);
        StripHead(rest, false, true, open, close);
      }
    }
  }

  lemma StripEscaped(c: byte, rest: bytes, open: bytes, close: bytes)
    requires Tokens(open, close) && QuoteOrBackslash(c)
    ensures StripAll([BACKSLASH, c] + rest, open, close) == [BACKSLASH, c] + StripAll(rest, open, close)
  {
    hide Strip;
    var s := [BACKSLASH, c] + rest;
    assert s[1..] == [c] + rest && s[1..][1..] == rest;
    StripHead(s, false, false, open, close);
    StripHead([c] + rest, false, true, open, close);
    Associative([BACKSLASH], [c], StripAll(rest, open, close));
  }

  /** In a string literal the cursor runs to the closing quote and changes nothing. */
  lemma {:induction false} StripInString(s: bytes, p: nat, open: bytes, close: bytes)
    requires p <= |s| && Tokens(open, close) && ClosingQuote(s, p).Some?
    ensures Strip(s, p, true, false, open, close) == Strip(s, ClosingQuote(s, p).value + 1, false, false, open, close)
    decreases |s| - p
  {
    hide Strip, BlankComment;
    StripStep(s, p, true, false, open, close);
    if s[p] == BACKSLASH {
      StripStep(s, p + 1, true, true, open, close);
      StripInString(s, p + 2, open, close);
    } else if s[p] != QUOTE {
      StripInString(s, p + 1, open, close);
    }
  }

  lemma {:induction false} ClosingQuoteIn(s: bytes, p: nat, t: bytes, i: nat)
    requires i <= |t| && At(s, p, t) && ClosingQuote(t, i).Some?
    ensures ClosingQuote(s, p + i) == Some(p + ClosingQuote(t, i).value)
    decreases |t| - i
  {
    AtIndex(s, p, t, i);
    if t[i] == BACKSLASH {
      AtIndex(s, p, t, i + 1);
      ClosingQuoteIn(s, p, t, i + 2);
    } else if t[i] != QUOTE {
      ClosingQuoteIn(s, p, t, i + 1);
    }
  }

  /** From behind the opening quote of a literal on. */
  lemma StripOpened(text: bytes, rest: bytes, open: bytes, close: bytes)
    requires Tokens(open, close) && text != [] && ClosingQuote(text, 0) == Some(|text| - 1)
    ensures StripFrom(text + rest, true, false, open, close) == text + StripAll(rest, open, close)
  {
    hide Strip, ClosingQuote;
    var s := text + rest;
    assert s[..|text|] == text && s[|text|..] == rest;
    ClosingQuoteIn(s, 0, text, 0);
    StripInString(s, 0, open, close);
    StripTail(s, |text|, false, false, open, close);
  }

  lemma StripLiteral(body: bytes, rest: bytes, open: bytes, close: bytes)
    requires Tokens(open, close) && ClosingQuote(body + [QUOTE], 0) == Some(|body|)
    ensures StripAll([QUOTE] + body + [QUOTE] + rest, open, close)
         == [QUOTE] + body + [QUOTE] + StripAll(rest, open, close)
  {
    hide StripAll, ClosingQuote;
    StripOpened(body + [QUOTE], rest, open, close);
    QuoteInFront(body + [QUOTE] + rest, open, close);
    Regroup(body, rest);
    Regroup(body, StripAll(rest, open, close));
  }

  lemma Regroup(body: bytes, rest: bytes)
    ensures [QUOTE] + (body + [QUOTE] + rest) == [QUOTE] + body + [QUOTE] + rest
  {
  }

  lemma QuoteInFront(s: bytes, open: bytes, close: bytes)
    requires open != [] && close != []
    ensures StripAll([QUOTE] + s, open, close) == [QUOTE] + StripFrom(s, true, false, open, close)
  {
    hide Strip;
    assert ([QUOTE] + s)[1..] == s;
    StripHead([QUOTE] + s, false, false, open, close);
  }

  /** A whole string literal is walked over. */
  lemma StripString(s: bytes, p: nat, open: bytes, close: bytes)
    requires p < |s| && s[p] == QUOTE && Tokens(open, close) && ClosingQuote(s, p + 1).Some?
    ensures Strip(s, p, false, false, open, close)
         == Strip(s, ClosingQuote(s, p + 1).value + 1, false, false, open, close)
  {
    StripInString(s, p + 1, open, close);
  }

  lemma AtFront(a: bytes, b: bytes, k: nat, t: bytes)
    requires k + |t| <= |a|
    ensures At(a + b, k, t) <==> At(a, k, t)
  {
    assert (a + b)[k..k + |t|] == a[k..k + |t|];
  }

  /** What is found in the front of a text is found in the whole text. */
  lemma SearchFront(a: bytes, b: bytes, p: nat, t: bytes)
    requires p <= |a| && Search(a, p, t).Some?
    ensures Search(a + b, p, t) == Search(a, p, t)
  {
    hide Search, At;
    var e := Search(a, p, t).value;
    AtFits(a, e, t);
    AtFront(a, b, e, t);
    forall k | p <= k < e
      ensures !At(a + b, k, t)
    {
      AtFront(a, b, k, t);
    }
    SearchIs(a + b, p, t, e);
  }

  lemma StripComment(body: bytes, rest: bytes, open: bytes, close: bytes)
    requires Tokens(open, close) && Search(body + close, 0, close) == Some(|body|)
    ensures StripAll(open + body + close + rest, open, close)
         == Spaces(|open| + |body| + |close|) + StripAll(rest, open, close)
  {
    hide Strip, Search;
    var s := open + body + close + rest;
    SearchFront(body + close, rest, 0, close);
    SearchBehind(open, body + close + rest, 0, close);
    assert s == open + (body + close + rest);
    assert s[0] == open[0] && s[|open + body + close|..] == rest;
    StripHead(s, false, false, open, close);
  }

  /** A comment that is never closed loses its opening token only, and the pass ends there. */
  lemma UnclosedCommentKeepsItsText(body: bytes, open: bytes, close: bytes)
    requires Tokens(open, close) && Search(body, 0, close).None?
    ensures StripAll(open + body, open, close) == Spaces(|open|) + body
  {
    hide Strip, Search;
    assert (open + body)[0] == open[0];
    SearchBehind(open, body, 0, close);
    StripHead(open + body, false, false, open, close);
  }

  /** One step of the cursor outside strings at a character that starts no comment. */
  lemma StepOverPlain(s: bytes, p: nat, open: bytes, close: bytes)
    requires p < |s| && open != [] && close != []
    requires s[p] != NUL && s[p] != QUOTE && s[p] != BACKSLASH && !(open <= s[p..])
    ensures Strip(s, p, false, false, open, close) == Strip(s, p + 1, false, false, open, close)
  {
  }

  lemma StripAtEnd(s: bytes, open: bytes, close: bytes)
    requires open != [] && close != []
    ensures Strip(s, |s|, false, false, open, close) == s
  {
  }

  // ----- serialized text has no comments -----

  /** Characters the cursor walks over outside strings when comments start with a slash. */
  predicate Quiet(t: bytes) {
    forall i | 0 <= i < |t| :: t[i] != NUL && t[i] != QUOTE && t[i] != BACKSLASH && t[i] != SLASH
  }

  lemma {:induction false} StripQuiet(s: bytes, p: nat, t: bytes, open: bytes, close: bytes)
    requires At(s, p, t) && Quiet(t) && Tokens(open, close) && open[0] == SLASH
    ensures Strip(s, p, false, false, open, close) == Strip(s, p + |t|, false, false, open, close)
    decreases |t|
  {
    hide Strip;
    if t != [] {
      JsonGrammar.AtHead(s, p, t[0], t[1..]);
      assert [t[0]] + t[1..] == t;
      StepOverPlain(s, p, open, close);
      StripQuiet(s, p + 1, t[1..], open, close);
    }
  }

  lemma StripQuoted(s: bytes, p: nat, chars: bytes, escapeSlashes: bool, open: bytes, close: bytes)
    requires At(s, p, Quoted(chars, escapeSlashes)) && Tokens(open, close)
    ensures Strip(s, p, false, false, open, close)
         == Strip(s, p + |Quoted(chars, escapeSlashes)|, false, false, open, close)
  {
    hide Strip, ClosingQuote, Escape;
    var e := Escape(chars, escapeSlashes);
    QuotedParts(s, p, e);
    ScanEscaped(s, p + 1, chars, escapeSlashes);
    StripString(s, p, open, close);
  }

  lemma LayoutIsQuiet(level: nat, more: bool, style: Style)
    ensures Quiet(Indented(level, style)) && Quiet(LineEnd(style)) && Quiet(Separator(more))
  {
    IndentedIsBlank(level, style);
  }

  lemma {:induction false} PrintedNatIsQuiet(n: nat)
    ensures Quiet(PrintNat(n))
  {
  }

  lemma {:induction false} StripPrinted(s: bytes, p: nat, v: Json, level: nat, style: Style, open: bytes, close: bytes)
    requires PrintableTree(v) && At(s, p, Print(v, level, style))
    requires Tokens(open, close) && open[0] == SLASH
    ensures Strip(s, p, false, false, open, close) == Strip(s, p + |Print(v, level, style)|, false, false, open, close)
    decreases v, 0
  {
    hide Strip, At, Quiet;
    match v
    case Null => WordsAreQuiet(); StripQuiet(s, p, NULL_TEXT, open, close);
    case Boolean(b) => WordsAreQuiet(); StripQuiet(s, p, if b then TRUE_TEXT else FALSE_TEXT, open, close);
    case Number(x) => NumberIsQuiet(x); StripQuiet(s, p, PrintNumber(x), open, close);
    case String(chars) => StripQuoted(s, p, chars, style.escapeSlashes, open, close);
    case Array(items) =>
      var a, b, c := Opening(LBRACKET, |items|, style), PrintItems(items, 0, level, style),
          Closing(RBRACKET, |items|, level, style);
      BracketsAreQuiet(|items|, level, style);
      AtConcat(s, p, a + b, c);
      AtConcat(s, p, a, b);
      StripQuiet(s, p, a, open, close);
      StripItems(s, p + |a|, items, 0, level, style, open, close);
      StripQuiet(s, p + |a + b|, c, open, close);
    case Object(members) =>
      var a, b, c := Opening(LBRACE, |members|, style), PrintMembers(members, 0, level, style),
          Closing(RBRACE, |members|, level, style);
      BracketsAreQuiet(|members|, level, style);
      AtConcat(s, p, a + b, c);
      AtConcat(s, p, a, b);
      StripQuiet(s, p, a, open, close);
      StripMembers(s, p + |a|, members, 0, level, style, open, close);
      StripQuiet(s, p + |a + b|, c, open, close);
  }

  lemma WordsAreQuiet()
    ensures Quiet(NULL_TEXT) && Quiet(TRUE_TEXT) && Quiet(FALSE_TEXT)
  {
  }

  lemma NumberIsQuiet(x: real)
    requires Printable(x)
    ensures Quiet(PrintNumber(x))
  {
    PrintedNatIsQuiet(if x.Floor < 0 then -x.Floor else x.Floor);
  }

  lemma BracketsAreQuiet(count: nat, level: nat, style: Style)
    ensures Quiet(Opening(LBRACKET, count, style)) && Quiet(Closing(RBRACKET, count, level, style))
    ensures Quiet(Opening(LBRACE, count, style)) && Quiet(Closing(RBRACE, count, level, style))
  {
    LayoutIsQuiet(level, false, style);
  }

  lemma {:induction false} StripItems(s: bytes, p: nat, items: seq<Json>, i: nat, level: nat, style: Style,
                                      open: bytes, close: bytes)
    requires i <= |items| && (forall k | 0 <= k < |items| :: PrintableTree(items[k]))
    requires At(s, p, PrintItems(items, i, level, style))
    requires Tokens(open, close) && open[0] == SLASH
    ensures Strip(s, p, false, false, open, close)
         == Strip(s, p + |PrintItems(items, i, level, style)|, false, false, open, close)
    decreases items, |items| - i
  {
    hide Strip, At, Quiet, Print, Indented, Separator, LineEnd;
    if i < |items| {
      var a, b := Indented(level + 1, style), Print(items[i], level + 1, style);
      var c, d := Separator(i + 1 < |items|), LineEnd(style);
      LayoutIsQuiet(level + 1, i + 1 < |items|, style);
      AtConcat(s, p, a + b + c + d, PrintItems(items, i + 1, level, style));
      AtConcat(s, p, a + b + c, d);
      AtConcat(s, p, a + b, c);
      AtConcat(s, p, a, b);
      StripQuiet(s, p, a, open, close);
      StripPrinted(s, p + |a|, items[i], level + 1, style, open, close);
      StripQuiet(s, p + |a + b|, c, open, close);
      StripQuiet(s, p + |a + b + c|, d, open, close);
      StripItems(s, p + |a + b + c + d|, items, i + 1, level, style, open, close);
    }
  }

  lemma StripKey(s: bytes, p: nat, name: bytes, style: Style, open: bytes, close: bytes)
    requires At(s, p, KeyText(name, style)) && Tokens(open, close) && open[0] == SLASH
    ensures Strip(s, p, false, false, open, close) == Strip(s, p + |KeyText(name, style)|, false, false, open, close)
  {
    hide Strip, At, Quoted;
    var a, b := Quoted(name, style.escapeSlashes), [COLON] + (if style.pretty then [SPACE] else []);
    assert KeyText(name, style) == a + b;
    AtConcat(s, p, a, b);
    StripQuoted(s, p, name, style.escapeSlashes, open, close);
    StripQuiet(s, p + |a|, b, open, close);
  }

  lemma {:induction false} StripMembers(s: bytes, p: nat, members: seq<Member>, i: nat, level: nat,
                                        style: Style, open: bytes, close: bytes)
    requires i <= |members| && (forall k | 0 <= k < |members| :: PrintableTree(members[k].value))
    requires At(s, p, PrintMembers(members, i, level, style))
    requires Tokens(open, close) && open[0] == SLASH
    ensures Strip(s, p, false, false, open, close)
         == Strip(s, p + |PrintMembers(members, i, level, style)|, false, false, open, close)
    decreases members, |members| - i
  {
    hide Strip, At, Quiet, Print, Indented, Separator, LineEnd, KeyText;
    if i < |members| {
      var a, k, b := Indented(level + 1, style), KeyText(members[i].name, style),
          Print(members[i].value, level + 1, style);
      var c, d := Separator(i + 1 < |members|), LineEnd(style);
      LayoutIsQuiet(level + 1, i + 1 < |members|, style);
      AtConcat(s, p, a + k + b + c + d, PrintMembers(members, i + 1, level, style));
      AtConcat(s, p, a + k + b + c, d);
      AtConcat(s, p, a + k + b, c);
      AtConcat(s, p, a + k, b);
      AtConcat(s, p, a, k);
      StripQuiet(s, p, a, open, close);
      StripKey(s, p + |a|, members[i].name, style, open, close);
      StripPrinted(s, p + |a + k|, members[i].value, level + 1, style, open, close);
      StripQuiet(s, p + |a + k + b|, c, open, close);
      StripQuiet(s, p + |a + k + b + c|, d, open, close);
      StripMembers(s, p + |a + k + b + c + d|, members, i + 1, level, style, open, close);
    }
  }

  /** Serialized text passes through unchanged, even with unescaped slashes in its strings. */
  lemma StripKeepsSerializedText(v: Json, level: nat, style: Style, open: bytes, close: bytes)
    requires PrintableTree(v) && Tokens(open, close) && open[0] == SLASH
    ensures StripAll(Print(v, level, style), open, close) == Print(v, level, style)
  {
    hide Strip, Print;
    var text := Print(v, level, style);
    assert text[0..|text|] == text;
    StripPrinted(text, 0, v, level, style, open, close);
    StripAtEnd(text, open, close);
  }

  /** `json_parse_string_with_comments`: block comments go first, then line comments. */
  function ParseWithComments(s: bytes): Option<Json> {
    FirstValue(WithoutComments(s))
  }

  /** Reading serialized text as text with comments also gives the value back. */
  lemma RoundTripWithComments(v: Json, level: nat, style: Style)
    requires WellFormed(v, 0) && PrintableTree(v)
    ensures ParseWithComments(Print(v, level, style)) == Some(v)
  {
    StripKeepsSerializedText(v, level, style, BLOCK_START, BLOCK_END);
    StripKeepsSerializedText(v, level, style, LINE_START, LINE_END);
    JsonRoundTrip.RoundTrip(v, level, style);
    hide Print, StripAll, JsonParse.ParseValue;
  }

  // ----- texts with both kinds of comments -----

  function WithoutBlocks(s: bytes): bytes {
    StripAll(s, BLOCK_START, BLOCK_END)
  }

  function WithoutLines(s: bytes): bytes {
    StripAll(s, LINE_START, LINE_END)
  }

  /** Where the pass over block comments stands when it has come to the end of a text. */
  datatype Scan = Outside | InString | InComment

  function ScanBlocks(t: bytes, inString: bool, escaped: bool): Scan {
    if t == [] then (if inString then InString else Outside)
    else if t[0] == BACKSLASH && !escaped then ScanBlocks(t[1..], inString, true)
    else if t[0] == QUOTE && !escaped then ScanBlocks(t[1..], !inString, false)
    else if !inString && BLOCK_START <= t then
      match Search(t, |BLOCK_START|, BLOCK_END)
      case None => InComment
      case Some(e) => ScanBlocks(t[e + |BLOCK_END|..], false, false)
    else ScanBlocks(t[1..], inString, false)
  }

  /** What can stand between two slashes and the end of the line. */
  predicate LineBody(body: bytes) {
    NulFree(body) && NEWLINE !in body
  }

  /**
   The pass over block comments comes through the line comment and stands outside again:
   the body does not make its second slash the start of a block comment, and leaves
   neither a string nor a block comment open.
   */
  predicate Balanced(body: bytes) {
    !(BLOCK_START <= [SLASH] + body) && ScanBlocks(body + LINE_END, false, false).Outside?
  }

  /** A rest of a line: NUL-free, its last character the line end. */
  predicate WholeLine(t: bytes) {
    NulFree(t) && t != [] && t[|t| - 1] == NEWLINE
  }

  lemma NoTokenAcrossLines(t: bytes, rest: bytes)
    requires WholeLine(t)
    ensures BLOCK_START <= t + rest <==> BLOCK_START <= t
    ensures |t| == 1 ==> !(BLOCK_START <= t)
  {
    assert (t + rest)[0] == t[0];
    if |t| > 1 {
      assert (t + rest)[1] == t[1];
    }
  }

  /** A closing token that a line does not hold is found behind the line. */
  lemma SearchAcrossLines(t: bytes, rest: bytes, p: nat)
    requires WholeLine(t) && p <= |t| && Search(t, p, BLOCK_END).None?
    ensures Search(t + rest, p, BLOCK_END)
         == Moved(Search(rest, 0, BLOCK_END), |t|)
  {
    hide Search;
    forall k: nat | p <= k < |t|
      ensures !At(t + rest, k, BLOCK_END)
    {
      if k + 1 < |t| {
        AtFront(t, rest, k, BLOCK_END);
      } else if At(t + rest, k, BLOCK_END) {
        AtIndex(t + rest, k, BLOCK_END, 0);
      }
    }
    SearchBehind(t, rest, 0, BLOCK_END);
    SearchSkips(t + rest, p, |t|, BLOCK_END);
  }

  lemma {:induction false} SearchSkips(s: bytes, p: nat, q: nat, t: bytes)
    requires p <= q <= |s| && forall k | p <= k < q :: !At(s, k, t)
    ensures Search(s, p, t) == Search(s, q, t)
  {
    hide At;
    var found := Search(s, q, t);
    if found.Some? {
      AtFits(s, found.value, t);
      SearchIs(s, p, t, found.value);
    }
  }

  lemma LineTail(t: bytes, rest: bytes, n: nat)
    requires WholeLine(t) && n < |t|
    ensures WholeLine(t[n..]) && (t + rest)[n..] == t[n..] + rest
  {
  }

  lemma BehindAComment(t: bytes)
    requires WholeLine(t) && 2 <= |t| && Search(t, 2, BLOCK_END).Some?
    ensures Search(t, 2, BLOCK_END).value + 2 < |t|
  {
    var e := Search(t, 2, BLOCK_END).value;
    AtFits(t, e, BLOCK_END);
    AtIndex(t, e, BLOCK_END, 1);
  }

  /** What one round at the front of a line makes of it, and the line and the flags that are left. */
  function LineRound(t: bytes, inString: bool, escaped: bool): (r: (bytes, nat, bool, bool))
    requires WholeLine(t) && !ScanBlocks(t, inString, escaped).InComment?
    ensures |r.0| == r.1 && 1 <= r.1 <= |t| && (r.1 == |t| ==> r.0[r.1 - 1] == NEWLINE && !r.3)
    ensures ScanBlocks(t, inString, escaped) == ScanBlocks(t[r.1..], r.2, r.3)
  {
    if t[0] == BACKSLASH && !escaped then ([t[0]], 1, inString, true)
    else if t[0] == QUOTE && !escaped then ([t[0]], 1, !inString, false)
    else if !inString && BLOCK_START <= t then
      BehindAComment(t);
      var n := Search(t, 2, BLOCK_END).value + 2;
      (Spaces(n), n, false, false)
    else ([t[0]], 1, inString, false)
  }

  /** The pass over block comments at a comment that is closed in the line. */
  lemma CommentRound(t: bytes, rest: bytes, escaped: bool)
    requires WholeLine(t) && BLOCK_START <= t && Search(t, 2, BLOCK_END).Some?
    ensures var n := Search(t, 2, BLOCK_END).value + 2;
            && n < |t|
            && StripFrom(t + rest, false, escaped, BLOCK_START, BLOCK_END)
               == Spaces(n) + StripFrom(t[n..] + rest, false, false, BLOCK_START, BLOCK_END)
  {
    BehindAComment(t);
    SearchFront(t, rest, 2, BLOCK_END);
    NoTokenAcrossLines(t, rest);
    hide StripFrom, Search, Spaces;
    var n := Search(t, 2, BLOCK_END).value + 2;
    LineTail(t, rest, n);
    assert (t + rest)[0] == t[0];
    StripHead(t + rest, false, escaped, BLOCK_START, BLOCK_END);
  }

  /** And at any other character. */
  lemma CharacterRound(t: bytes, rest: bytes, inString: bool, escaped: bool)
    requires WholeLine(t) && (inString || !(BLOCK_START <= t))
    ensures StripFrom(t + rest, inString, escaped, BLOCK_START, BLOCK_END)
         == [t[0]] + StripFrom(t[1..] + rest, inString != (t[0] == QUOTE && !escaped), t[0] == BACKSLASH && !escaped,
                               BLOCK_START, BLOCK_END)
  {
    NoTokenAcrossLines(t, rest);
    hide StripFrom;
    assert (t + rest)[0] == t[0] && (t + rest)[1..] == t[1..] + rest;
    StripHead(t + rest, inString, escaped, BLOCK_START, BLOCK_END);
  }

  lemma BlocksRound(t: bytes, rest: bytes, inString: bool, escaped: bool)
    requires WholeLine(t) && !ScanBlocks(t, inString, escaped).InComment?
    ensures var r := LineRound(t, inString, escaped);
            StripFrom(t + rest, inString, escaped, BLOCK_START, BLOCK_END)
            == r.0 + StripFrom(t[r.1..] + rest, r.2, r.3, BLOCK_START, BLOCK_END)
  {
    if !inString && BLOCK_START <= t {
      assert t[0] == SLASH;
      hide StripFrom;
      CommentRound(t, rest, escaped);
    } else {
      hide StripFrom, Search;
      CharacterRound(t, rest, inString, escaped);
    }
  }

  /** The pass over block comments from the front of a line whose end it reaches outside a block comment. */
  lemma {:induction false} BlocksOverALine(t: bytes, rest: bytes, inString: bool, escaped: bool)
    requires WholeLine(t) && !ScanBlocks(t, inString, escaped).InComment?
    ensures var r := StripFrom(t, inString, escaped, BLOCK_START, BLOCK_END);
            && StripFrom(t + rest, inString, escaped, BLOCK_START, BLOCK_END)
               == r + StripFrom(rest, ScanBlocks(t, inString, escaped).InString?, false, BLOCK_START, BLOCK_END)
            && |r| == |t| && r[|t| - 1] == NEWLINE
    decreases |t|
  {
    hide StripFrom, LineRound;
    var (front, n, inString', escaped') := LineRound(t, inString, escaped);
    BlocksRound(t, rest, inString, escaped);
    BlocksRound(t, [], inString, escaped);
    assert t + [] == t && t[n..] + [] == t[n..];
    if n < |t| {
      LineTail(t, rest, n);
      BlocksOverALine(t[n..], rest, inString', escaped');
    } else {
      assert t[n..] == [] && [] + rest == rest;
      StripNothing(inString', escaped', BLOCK_START, BLOCK_END);
    }
    Associative(front, StripFrom(t[n..], inString', escaped', BLOCK_START, BLOCK_END),
                StripFrom(rest, ScanBlocks(t, inString, escaped).InString?, false, BLOCK_START, BLOCK_END));
  }

  lemma StripNothing(inString: bool, escaped: bool, open: bytes, close: bytes)
    requires open != [] && close != []
    ensures StripFrom([], inString, escaped, open, close) == []
  {
  }
  function LineText(body: bytes): bytes {
    LINE_START + body + LINE_END
  }

  /** A line comment for the pass over block comments: its two slashes stay, and the pass goes on behind them. */
  lemma BlocksOverTwoSlashes(body: bytes, rest: bytes)
    requires LineBody(body) && !(BLOCK_START <= [SLASH] + body)
    ensures WithoutBlocks(LineText(body) + rest)
         == LINE_START + StripFrom(body + LINE_END + rest, false, false, BLOCK_START, BLOCK_END)
  {
    hide Strip;
    var s, u := LineText(body) + rest, body + LINE_END + rest;
    assert s[1..] == [SLASH] + u && s[1..][1..] == u && ([SLASH] + u)[1] == u[0];
    assert u[0] == if body == [] then NEWLINE else ([SLASH] + body)[1];
    StripHead(s, false, false, BLOCK_START, BLOCK_END);
    StripHead([SLASH] + u, false, false, BLOCK_START, BLOCK_END);
  }

  /** What the pass over block comments leaves of a line comment is a line comment. */
  function LeftOfLine(body: bytes): (r: bytes)
    requires LineBody(body) && !ScanBlocks(body + LINE_END, false, false).InComment?
    ensures LineBody(r) && |r| == |body|
    ensures StripFrom(body + LINE_END, false, false, BLOCK_START, BLOCK_END) == r + LINE_END
  {
    var t := body + LINE_END;
    var r := StripFrom(t, false, false, BLOCK_START, BLOCK_END);
    BlocksOverALine(t, [], false, false);
    StripOnlyBlanks(t, 0, false, false, BLOCK_START, BLOCK_END);
    assert r[..|body|] + LINE_END == r;
    r[..|body|]
  }

  lemma LineAndRest(body: bytes, rest: bytes)
    ensures LINE_START + (body + LINE_END + rest) == LineText(body) + rest
  {
  }

  lemma BlocksOverLineComment(body: bytes, rest: bytes)
    requires LineBody(body) && !(BLOCK_START <= [SLASH] + body)
    requires !ScanBlocks(body + LINE_END, false, false).InComment?
    ensures WithoutBlocks(LineText(body) + rest)
         == LineText(LeftOfLine(body))
            + StripFrom(rest, ScanBlocks(body + LINE_END, false, false).InString?, false, BLOCK_START, BLOCK_END)
  {
    BlocksOverTwoSlashes(body, rest);
    assert WholeLine(body + LINE_END);
    hide *;
    BlocksOverALine(body + LINE_END, rest, false, false);
    LineAndRest(LeftOfLine(body),
                StripFrom(rest, ScanBlocks(body + LINE_END, false, false).InString?, false, BLOCK_START, BLOCK_END));
  }

  /** The second pass blanks a line comment to its end. */
  lemma LineCommentGoes(body: bytes, rest: bytes)
    requires LineBody(body)
    ensures WithoutLines(LineText(body) + rest) == Spaces(|body| + 3) + WithoutLines(rest)
  {
    hide Strip;
    forall k | 0 <= k < |body|
      ensures !At(body + LINE_END, k, LINE_END)
    {
      assert (body + LINE_END)[k..k + 1][0] == body[k];
    }
    assert At(body + LINE_END, |body|, LINE_END);
    SearchIs(body + LINE_END, 0, LINE_END, |body|);
    StripComment(body, rest, LINE_START, LINE_END);
  }

  /** Both passes. */
  function WithoutComments(s: bytes): bytes {
    WithoutLines(WithoutBlocks(s))
  }

  lemma BalancedLineGoes(body: bytes, rest: bytes)
    requires LineBody(body) && Balanced(body)
    ensures WithoutComments(LineText(body) + rest) == Spaces(|body| + 3) + WithoutComments(rest)
  {
    hide Strip, ScanBlocks, LineText;
    BlocksOverLineComment(body, rest);
    LineCommentGoes(LeftOfLine(body), WithoutBlocks(rest));
  }

  /** A text with both kinds of comments: line comments between the pieces of the other pass. */
  datatype Part = Code(piece: Piece) | Line(body: bytes)
  {
    function Text(): bytes {
      match this
      case Code(piece) => piece.Text(BLOCK_START, BLOCK_END)
      case Line(body) => LineText(body)
    }

    /** The text with either kind of comment replaced by as many spaces. */
    function Blanked(): bytes {
      match this
      case Code(piece) => piece.Blanked(BLOCK_START, BLOCK_END)
      case Line(body) => Spaces(|body| + 3)
    }
  }

  function MixedText(parts: seq<Part>): bytes {
    if parts == [] then [] else parts[0].Text() + MixedText(parts[1..])
  }

  function MixedBlanked(parts: seq<Part>): bytes {
    if parts == [] then [] else parts[0].Blanked() + MixedBlanked(parts[1..])
  }

  /** The part at the front, in front of the rest of the text; no comment of either kind starts elsewhere. */
  ghost predicate LexicalPart(part: Part, rest: bytes) {
    match part
    case Code(piece) =>
      && LexicalPiece(piece, rest, BLOCK_START, BLOCK_END)
      && (!piece.Comment? ==> LexicalPiece(piece, rest, LINE_START, LINE_END))
    case Line(body) => LineBody(body)
  }

  /** The cut of a reader that knows both kinds of comments at once. */
  ghost predicate LexicalParts(parts: seq<Part>) {
    parts != [] ==> LexicalParts(parts[1..]) && LexicalPart(parts[0], MixedText(parts[1..]))
  }

  lemma {:induction false} BlankSpaces(n: nat, rest: bytes)
    ensures WithoutLines(Spaces(n) + rest) == Spaces(n) + WithoutLines(rest)
  {
    hide Strip;
    if n == 0 {
      assert Spaces(0) + rest == rest;
    } else {
      BlankSpaces(n - 1, rest);
      SpacesConcat(1, n - 1);
      assert Spaces(1) == [SPACE] && [SPACE] + (Spaces(n - 1) + rest) == Spaces(n) + rest;
      StripPlain(SPACE, Spaces(n - 1) + rest, LINE_START, LINE_END);
    }
  }

  /** The pass over block comments makes no slash, quotation mark or backslash. */
  lemma LexicalBehindBlocks(piece: Piece, rest: bytes)
    requires LexicalPiece(piece, rest, LINE_START, LINE_END)
    ensures LexicalPiece(piece, WithoutBlocks(rest), LINE_START, LINE_END)
  {
    if piece.Plain? && rest != [] {
      StripOnlyBlanks(rest, 0, false, false, BLOCK_START, BLOCK_END);
      assert ([piece.c] + rest)[1] == rest[0];
      assert ([piece.c] + WithoutBlocks(rest))[1] == WithoutBlocks(rest)[0];
    }
  }

  lemma PartGoes(part: Part, rest: bytes)
    requires LexicalPart(part, rest) && (part.Line? ==> Balanced(part.body))
    ensures WithoutComments(part.Text() + rest) == part.Blanked() + WithoutComments(rest)
  {
    hide StripAll, LexicalPiece;
    match part
    case Line(body) => BalancedLineGoes(body, rest);
    case Code(piece) =>
      StripPiece(piece, rest, BLOCK_START, BLOCK_END);
      if piece.Comment? {
        BlankSpaces(|BLOCK_START| + |piece.body| + |BLOCK_END|, WithoutBlocks(rest));
      } else {
        LexicalBehindBlocks(piece, rest);
        StripPiece(piece, WithoutBlocks(rest), LINE_START, LINE_END);
      }
  }

  predicate LinesBalanced(parts: seq<Part>) {
    forall i | 0 <= i < |parts| :: parts[i].Line? ==> Balanced(parts[i].body)
  }

  /** Of a text with both kinds of comments all are blanked, and nothing else, when its line comments are balanced. */
  lemma {:induction false} BothKindsOfCommentsAreBlanked(parts: seq<Part>)
    requires LexicalParts(parts) && LinesBalanced(parts)
    ensures WithoutComments(MixedText(parts)) == MixedBlanked(parts)
  {
    hide StripAll, LexicalPart, Balanced;
    if parts == [] {
      NothingToStrip();
    } else {
      PartGoes(parts[0], MixedText(parts[1..]));
      BothKindsOfCommentsAreBlanked(parts[1..]);
    }
  }

  lemma NothingToStrip()
    ensures WithoutComments([]) == []
  {
  }

  // ----- what happens behind a line comment that is not balanced -----

  /** At a comment that the line does not close and the rest closes with its end. */
  lemma SwallowedRound(t: bytes, y: bytes, escaped: bool)
    requires WholeLine(t) && BLOCK_START <= t && Search(t, 2, BLOCK_END).None?
    requires |y| >= 2 && Search(y, 0, BLOCK_END) == Some(|y| - 2)
    ensures StripFrom(t + y, false, escaped, BLOCK_START, BLOCK_END) == Spaces(|t| + |y|)
  {
    hide StripFrom, Search;
    SearchAcrossLines(t, y, 2);
    NoTokenAcrossLines(t, y);
    assert (t + y)[0] == t[0] && (t + y)[|t| + |y|..] == [];
    StripHead(t + y, false, escaped, BLOCK_START, BLOCK_END);
    StripNothing(false, false, BLOCK_START, BLOCK_END);
  }

  /** A block comment that is open at the end of a line takes what follows up to its closing token. */
  lemma {:induction false} OpenCommentSwallows(t: bytes, y: bytes, z: bytes, inString: bool, escaped: bool)
    requires WholeLine(t) && ScanBlocks(t, inString, escaped).InComment?
    requires |y| == |z| >= 2 && Search(y, 0, BLOCK_END) == Search(z, 0, BLOCK_END) == Some(|y| - 2)
    ensures StripFrom(t + y, inString, escaped, BLOCK_START, BLOCK_END)
         == StripFrom(t + z, inString, escaped, BLOCK_START, BLOCK_END)
    decreases |t|
  {
    if !inString && BLOCK_START <= t {
      hide StripFrom;
      if Search(t, 2, BLOCK_END).None? {
        SwallowedRound(t, y, escaped);
        SwallowedRound(t, z, escaped);
      } else {
        CommentRound(t, y, escaped);
        CommentRound(t, z, escaped);
        var n := Search(t, 2, BLOCK_END).value + 2;
        LineTail(t, y, n);
        OpenCommentSwallows(t[n..], y, z, false, false);
      }
    } else {
      hide StripFrom, Search;
      CharacterRound(t, y, inString, escaped);
      CharacterRound(t, z, inString, escaped);
      assert |t| > 1;
      LineTail(t, y, 1);
      OpenCommentSwallows(t[1..], y, z, inString != (t[0] == QUOTE && !escaped), t[0] == BACKSLASH && !escaped);
    }
  }

  /** In a string that is never closed the cursor runs to the end and changes nothing. */
  lemma {:induction false} StripInOpenString(s: bytes, p: nat, open: bytes, close: bytes)
    requires p <= |s| && open != [] && close != [] && ClosingQuote(s, p).None?
    ensures Strip(s, p, true, false, open, close) == s
    decreases |s| - p
  {
    hide BlankComment;
    if Peek(s, p) == BACKSLASH {
      if Peek(s, p + 1) != NUL {
        StripInOpenString(s, p + 2, open, close);
      }
    } else if Peek(s, p) != NUL {
      StripInOpenString(s, p + 1, open, close);
    }
  }

  /**
   A string that a line comment leaves open keeps the comments behind the line, when no
   unescaped quotation mark follows that closes it.
   */
  lemma LoneQuoteKeepsBlockComments(body: bytes, rest: bytes)
    requires LineBody(body) && !(BLOCK_START <= [SLASH] + body)
    requires ScanBlocks(body + LINE_END, false, false).InString? && ClosingQuote(rest, 0).None?
    ensures WithoutBlocks(LineText(body) + rest) == LineText(LeftOfLine(body)) + rest
  {
    hide Strip, ScanBlocks, LeftOfLine;
    BlocksOverLineComment(body, rest);
    StripInOpenString(rest, 0, BLOCK_START, BLOCK_END);
  }

  /** A body that goes on with a star: the second slash starts a block comment and the first one is left alone. */
  lemma StarLeavesASlash(body: bytes, rest: bytes)
    requires BLOCK_START <= [SLASH] + body
    ensures var r := WithoutComments(LineText(body) + rest);
            r != [] && r[0] == SLASH
  {
    var s := LineText(body) + rest;
    var u := s[1..];
    assert u[0] == SLASH && u[1] == ([SLASH] + body)[1] && s[1] == SLASH;
    hide Strip, Search;
    StripHead(s, false, false, BLOCK_START, BLOCK_END);
    StripHead(u, false, false, BLOCK_START, BLOCK_END);
    StripOnlyBlanks(u, 0, false, false, BLOCK_START, BLOCK_END);
    var t := WithoutBlocks(s);
    assert t[0] == SLASH && t[1] == SPACE;
    StripHead(t, false, false, LINE_START, LINE_END);
  }

  /** A block comment and a digit, and the other way round. */
  function DigitBehind(): seq<Part> {
    [Code(Comment([])), Code(Plain(ZERO + 1))]
  }

  function DigitAhead(d: nat): seq<Part>
    requires d < 10
  {
    [Code(Plain(ZERO + d)), Code(Comment([]))]
  }

  lemma Probes(d: nat)
    requires d < 10
    ensures MixedText(DigitBehind()) == BLOCK_START + BLOCK_END + [ZERO + 1]
    ensures MixedBlanked(DigitBehind()) == Spaces(4) + [ZERO + 1]
    ensures MixedText(DigitAhead(d)) == [ZERO + d] + BLOCK_START + BLOCK_END
    ensures MixedBlanked(DigitAhead(d)) == [ZERO + d] + Spaces(4)
    ensures LexicalParts(DigitBehind()) && LexicalParts(DigitAhead(d))
  {
    var comment, digit, one := Code(Comment([])), Code(Plain(ZERO + d)), Code(Plain(ZERO + 1));
    EmptyComment([]);
    EmptyComment([ZERO + 1]);
    DigitPart(d, comment.Text());
    DigitPart(1, []);
    hide Search, Spaces, LexicalPart;
    TwoParts(comment, one);
    TwoParts(digit, comment);
    assert comment.Text() == BLOCK_START + BLOCK_END;
    assert digit.Text() + comment.Text() == [ZERO + d] + BLOCK_START + BLOCK_END;
  }

  lemma TwoParts(a: Part, b: Part)
    ensures MixedText([a, b]) == a.Text() + b.Text() && MixedBlanked([a, b]) == a.Blanked() + b.Blanked()
    ensures LexicalPart(a, b.Text()) && LexicalPart(b, []) ==> LexicalParts([a, b])
  {
    assert [a, b][1..] == [b] && [b][1..] == [];
    hide LexicalPart;
    assert MixedText([b]) == b.Text() + [] && MixedBlanked([b]) == b.Blanked() + [];
    assert LexicalParts([]) && MixedText([]) == [];
    assert LexicalParts([b]) <==> LexicalPart(b, []);
  }

  lemma EmptyComment(rest: bytes)
    ensures LexicalPart(Code(Comment([])), rest) && Code(Comment([])).Blanked() == Spaces(4)
  {
    assert [] + BLOCK_END == BLOCK_END && At(BLOCK_END, 0, BLOCK_END);
  }

  lemma DigitPart(d: nat, rest: bytes)
    requires d < 10
    ensures LexicalPart(Code(Plain(ZERO + d)), rest)
  {
    assert ([ZERO + d] + rest)[0] == ZERO + d;
  }

  /** The value a text is read as, `None` when it is refused. */
  function FirstValue(s: bytes): Option<Json> {
    match JsonParse.ParseValue(s, 0, 0)
    case None => None
    case Some((v, _)) => Some(v)
  }

  lemma SkipIndent(n: nat, t: bytes)
    requires t != [] && !IsSpace(t[0])
    ensures SkipSpaces(Spaces(n) + t, 0) == n && (Spaces(n) + t)[n] == t[0]
  {
    SkipSpacesOver(Spaces(n) + t, 0, n);
  }

  lemma SlashIsNoValue(n: nat, t: bytes)
    requires t != [] && t[0] == SLASH
    ensures FirstValue(Spaces(n) + t) == None
  {
    hide Spaces, SkipSpaces;
    SkipIndent(n, t);
  }

  lemma DigitIsRead(n: nat, d: nat, rest: bytes)
    requires 1 <= d < 10 && JsonNumeral.Ends(Peek(rest, 0))
    ensures FirstValue(Spaces(n) + ([ZERO + d] + rest)) == Some(Number(d as real))
  {
    hide Spaces, SkipSpaces, ParseNumber;
    var t := [ZERO + d] + rest;
    var s := Spaces(n) + t;
    SkipIndent(n, t);
    assert PrintNumber(d as real) == [ZERO + d] && s[n..n + 1] == [ZERO + d];
    assert Peek(s, n + 1) == Peek(rest, 0);
    JsonLayout.ParseNumberOfPrinted(s, n, d as real);
  }

  /** A text is read as the same text with all comments blanked. */
  ghost predicate ReadsRight(parts: seq<Part>) {
    ParseWithComments(MixedText(parts)) == FirstValue(MixedBlanked(parts))
  }

  function Behind(body: bytes, parts: seq<Part>): (r: seq<Part>)
    ensures r != [] && r[0] == Line(body) && r[1..] == parts
    ensures MixedText(r) == LineText(body) + MixedText(parts)
    ensures MixedBlanked(r) == Spaces(|body| + 3) + MixedBlanked(parts)
  {
    [Line(body)] + parts
  }

  /** What a line comment and the text behind it are read as, and what they should be read as. */
  function ReadBehind(body: bytes, parts: seq<Part>): Option<Json> {
    FirstValue(WithoutComments(LineText(body) + MixedText(parts)))
  }

  function DueBehind(body: bytes, parts: seq<Part>): Option<Json> {
    FirstValue(Spaces(|body| + 3) + MixedBlanked(parts))
  }

  lemma ReadsRightBehind(body: bytes, parts: seq<Part>)
    ensures ReadsRight(Behind(body, parts)) <==> ReadBehind(body, parts) == DueBehind(body, parts)
  {
    hide FirstValue, WithoutComments, MixedText, MixedBlanked, LineText;
  }

  lemma OpenCommentMisreads(body: bytes)
    requires LineBody(body) && !(BLOCK_START <= [SLASH] + body)
    requires ScanBlocks(body + LINE_END, false, false).InComment?
    ensures !ReadsRight(Behind(body, DigitAhead(1))) || !ReadsRight(Behind(body, DigitAhead(2)))
  {
    ReadsRightBehind(body, DigitAhead(1));
    ReadsRightBehind(body, DigitAhead(2));
    DueWithDigitAhead(body, 1);
    DueWithDigitAhead(body, 2);
    TheSameBehindAnOpenComment(body);
    hide *;
  }

  lemma TheSameBehindAnOpenComment(body: bytes)
    requires LineBody(body) && !(BLOCK_START <= [SLASH] + body)
    requires ScanBlocks(body + LINE_END, false, false).InComment?
    ensures ReadBehind(body, DigitAhead(1)) == ReadBehind(body, DigitAhead(2))
  {
    hide Spaces, StripFrom, Search, ScanBlocks, MixedText, MixedBlanked, DigitAhead, DigitBehind, LexicalParts;
    hide FirstValue;
    Probes(1);
    Probes(2);
    ClosedByItsEnd(1);
    ClosedByItsEnd(2);
    var y, z := MixedText(DigitAhead(1)), MixedText(DigitAhead(2));
    BlocksOverTwoSlashes(body, y);
    BlocksOverTwoSlashes(body, z);
    OpenCommentSwallows(body + LINE_END, y, z, false, false);
    hide WithoutLines, WithoutBlocks;
  }

  lemma DueWithDigitAhead(body: bytes, d: nat)
    requires 1 <= d < 10
    ensures DueBehind(body, DigitAhead(d)) == Some(Number(d as real))
  {
    hide FirstValue, MixedText, MixedBlanked, DigitAhead, DigitBehind, LexicalParts;
    Probes(d);
    assert Spaces(4)[0] == SPACE;
    hide Spaces;
    DigitIsRead(|body| + 3, d, Spaces(4));
  }

  lemma DueWithDigitBehind(body: bytes)
    ensures DueBehind(body, DigitBehind()) == Some(Number(1.0))
  {
    hide FirstValue, MixedText, MixedBlanked, DigitAhead, DigitBehind, LexicalParts;
    Probes(1);
    SpacesConcat(|body| + 3, 4);
    Associative(Spaces(|body| + 3), Spaces(4), [ZERO + 1]);
    assert [ZERO + 1] + [] == [ZERO + 1];
    hide Spaces;
    DigitIsRead(|body| + 7, 1, []);
  }

  lemma ClosedByItsEnd(d: nat)
    requires d < 10
    ensures Search([ZERO + d] + BLOCK_START + BLOCK_END, 0, BLOCK_END) == Some(3)
  {
    var y := [ZERO + d] + BLOCK_START + BLOCK_END;
    assert y == [ZERO + d, SLASH, 0x2A, 0x2A, SLASH];
    assert At(y, 3, BLOCK_END);
    forall k | 0 <= k < 3
      ensures !At(y, k, BLOCK_END)
    {
      if At(y, k, BLOCK_END) {
        AtIndex(y, k, BLOCK_END, 0);
        AtIndex(y, k, BLOCK_END, 1);
      }
    }
    hide At;
    SearchIs(y, 0, BLOCK_END, 3);
  }

  lemma OpenStringKeeps(body: bytes, rest: bytes)
    requires LineBody(body) && !(BLOCK_START <= [SLASH] + body)
    requires ScanBlocks(body + LINE_END, false, false).InString? && ClosingQuote(rest, 0).None?
    ensures WithoutComments(LineText(body) + rest) == Spaces(|body| + 3) + WithoutLines(rest)
  {
    hide *;
    TwoPasses(LineText(body) + rest);
    LoneQuoteKeepsBlockComments(body, rest);
    LineCommentGoes(LeftOfLine(body), rest);
  }

  lemma TwoPasses(s: bytes)
    ensures WithoutComments(s) == WithoutLines(WithoutBlocks(s))
  {
  }

  lemma RefusedBehindAnOpenString(body: bytes)
    requires LineBody(body) && !(BLOCK_START <= [SLASH] + body)
    requires ScanBlocks(body + LINE_END, false, false).InString?
    ensures ReadBehind(body, DigitBehind()) == None
  {
    var y := BLOCK_START + BLOCK_END + [ZERO + 1];
    NoQuoteInProbe();
    SlashStays(y);
    hide FirstValue, WithoutComments, WithoutLines, MixedText, MixedBlanked, DigitBehind, LexicalParts, Spaces;
    hide LineText, ScanBlocks, ClosingQuote;
    Probes(1);
    OpenStringKeeps(body, y);
    SlashIsNoValue(|body| + 3, WithoutLines(y));
  }

  lemma OpenStringMisreads(body: bytes)
    requires LineBody(body) && !(BLOCK_START <= [SLASH] + body)
    requires ScanBlocks(body + LINE_END, false, false).InString?
    ensures !ReadsRight(Behind(body, DigitBehind()))
  {
    ReadsRightBehind(body, DigitBehind());
    RefusedBehindAnOpenString(body);
    DueWithDigitBehind(body);
    hide *;
  }

  lemma NoQuoteInProbe()
    ensures ClosingQuote(BLOCK_START + BLOCK_END + [ZERO + 1], 0).None?
  {
  }

  lemma SlashStays(y: bytes)
    requires y != [] && y[0] == SLASH && !(LINE_START <= y)
    ensures WithoutLines(y) != [] && WithoutLines(y)[0] == SLASH
  {
    hide Strip;
    StripHead(y, false, false, LINE_START, LINE_END);
  }

  lemma RefusedBehindAStar(body: bytes)
    requires BLOCK_START <= [SLASH] + body
    ensures ReadBehind(body, DigitAhead(1)) == None
  {
    hide FirstValue, WithoutComments, MixedText, LineText;
    var r := WithoutComments(LineText(body) + MixedText(DigitAhead(1)));
    StarLeavesASlash(body, MixedText(DigitAhead(1)));
    assert Spaces(0) + r == r;
    SlashIsNoValue(0, r);
  }

  lemma StarMisreads(body: bytes)
    requires BLOCK_START <= [SLASH] + body
    ensures !ReadsRight(Behind(body, DigitAhead(1)))
  {
    ReadsRightBehind(body, DigitAhead(1));
    RefusedBehindAStar(body);
    DueWithDigitAhead(body, 1);
    hide *;
  }

  /** Three texts tell whether a line comment is balanced. */
  lemma UnbalancedMisreads(body: bytes)
    requires LineBody(body) && !Balanced(body)
    ensures !ReadsRight(Behind(body, DigitBehind())) || !ReadsRight(Behind(body, DigitAhead(1)))
            || !ReadsRight(Behind(body, DigitAhead(2)))
  {
    hide ReadsRight, ScanBlocks, LineBody;
    if BLOCK_START <= [SLASH] + body {
      StarMisreads(body);
    } else if ScanBlocks(body + LINE_END, false, false).InComment? {
      OpenCommentMisreads(body);
    } else {
      OpenStringMisreads(body);
    }
  }

  // ----- exactly when comments of both kinds go away -----

  /** A line comment vanishes in front of every text if and only if it is balanced. */
  lemma LineCommentGoesIff(body: bytes)
    requires LineBody(body)
    ensures Balanced(body)
       <==> forall rest :: WithoutComments(LineText(body) + rest) == Spaces(|body| + 3) + WithoutComments(rest)
  {
    hide Balanced, WithoutComments, LineBody, ReadsRight, LexicalParts, LineText, Spaces;
    if Balanced(body) {
      forall rest
        ensures WithoutComments(LineText(body) + rest) == Spaces(|body| + 3) + WithoutComments(rest)
      {
        BalancedLineGoes(body, rest);
      }
    } else {
      Probes(1);
      Probes(2);
      UnbalancedMisreads(body);
      if forall rest :: WithoutComments(LineText(body) + rest) == Spaces(|body| + 3) + WithoutComments(rest) {
        RightInFront(body, DigitBehind());
        RightInFront(body, DigitAhead(1));
        RightInFront(body, DigitAhead(2));
      }
    }
  }

  lemma RightInFront(body: bytes, parts: seq<Part>)
    requires LexicalParts(parts) && LinesBalanced(parts)
    requires var rest := MixedText(parts);
             WithoutComments(LineText(body) + rest) == Spaces(|body| + 3) + WithoutComments(rest)
    ensures ReadsRight(Behind(body, parts))
  {
    hide WithoutComments, LexicalParts, FirstValue;
    BothKindsOfCommentsAreBlanked(parts);
  }

  predicate LinesFrom(parts: seq<Part>, bodies: iset<bytes>) {
    forall i | 0 <= i < |parts| :: parts[i].Line? ==> parts[i].body in bodies
  }

  /**
   The condition is exact: every text whose line comments come from `bodies` is read as
   the same text with all comments blanked if and only if those bodies are balanced.
   */
  lemma CommentsReadRightIff(bodies: iset<bytes>)
    requires forall body | body in bodies :: LineBody(body)
    ensures (forall body | body in bodies :: Balanced(body))
       <==> (forall parts | LexicalParts(parts) && LinesFrom(parts, bodies) :: ReadsRight(parts))
  {
    hide Balanced, LexicalParts, WithoutComments, FirstValue, ReadsRight, LineBody;
    if forall body | body in bodies :: Balanced(body) {
      forall parts | LexicalParts(parts) && LinesFrom(parts, bodies)
        ensures ReadsRight(parts)
      {
        BalancedReadsRight(parts);
      }
    }
    if forall parts | LexicalParts(parts) && LinesFrom(parts, bodies) :: ReadsRight(parts) {
      forall body | body in bodies
        ensures Balanced(body)
      {
        Probes(1);
        Probes(2);
        InFront(body, DigitBehind());
        InFront(body, DigitAhead(1));
        InFront(body, DigitAhead(2));
        if !Balanced(body) {
          UnbalancedMisreads(body);
        }
      }
    }
  }

  lemma BalancedReadsRight(parts: seq<Part>)
    requires LexicalParts(parts) && LinesBalanced(parts)
    ensures ReadsRight(parts)
  {
    hide WithoutComments, LexicalParts, FirstValue;
    BothKindsOfCommentsAreBlanked(parts);
  }

  lemma InFront(body: bytes, parts: seq<Part>)
    requires LexicalParts(parts) && LineBody(body)
    ensures LexicalParts(Behind(body, parts))
  {
  }

  /** A line comment without quotation marks and openings of block comments is balanced, whatever its backslashes. */
  lemma {:induction false} QuietLineIsBalanced(body: bytes)
    requires LineBody(body) && QUOTE !in body && !(BLOCK_START <= [SLASH] + body)
    requires forall i | 0 <= i < |body| :: !(BLOCK_START <= body[i..])
    ensures Balanced(body)
  {
    QuietScan(body, false);
  }

  lemma {:induction false} QuietScan(body: bytes, escaped: bool)
    requires QUOTE !in body && forall i | 0 <= i < |body| :: !(BLOCK_START <= body[i..])
    ensures ScanBlocks(body + LINE_END, false, escaped).Outside?
    decreases |body|
  {
    var t := body + LINE_END;
    if body == [] {
      assert t[1..] == [];
    } else {
      assert t[1..] == body[1..] + LINE_END && body[0..] == body;
      assert |body| == 1 ==> t[1] == NEWLINE;
      assert BLOCK_START <= t ==> BLOCK_START <= body;
      forall i | 0 <= i < |body[1..]|
        ensures !(BLOCK_START <= body[1..][i..])
      {
        assert body[1..][i..] == body[i + 1..];
      }
      QuietScan(body[1..], t[0] == BACKSLASH && !escaped);
    }
  }

  // ----- in place -----

  /** The inner loops: `n` characters from `a` on become spaces. */
  method BlankRange(buf: array<byte>, a: nat, n: nat)
    requires a + n <= buf.Length
    modifies buf
    ensures buf[..] == BlankOut(old(buf[..]), a, a + n)
  {
    for i := 0 to n
      invariant buf[..] == BlankOut(old(buf[..]), a, a + i)
    {
      buf[a + i] := SPACE;
    }
  }

  /** The C string a buffer holds in front of its last byte. */
  function Contents(buf: array<byte>): bytes
    requires buf.Length > 0
    reads buf
  {
    buf[..buf.Length - 1]
  }

  lemma BlankTake(s: bytes, a: nat, b: nat, n: nat)
    requires a <= b <= n <= |s|
    ensures BlankOut(s, a, b)[..n] == BlankOut(s[..n], a, b)
  {
  }

  /** The comment branch of the loop: the position behind the comment, if it is closed. */
  method BlankCommentInPlace(buf: array<byte>, p: nat, open: bytes, close: bytes) returns (next: Option<nat>)
    requires buf.Length > 0 && buf[buf.Length - 1] == NUL
    requires p + |open| < buf.Length && open != [] && close != [] && NulFree(Contents(buf))
    modifies buf
    ensures NulFree(Contents(buf))
    ensures (Contents(buf), next) == BlankComment(old(Contents(buf)), p, open, close)
    ensures buf[buf.Length - 1] == NUL
  {
    hide BlankOut, Search, Spaces;
    var n := buf.Length - 1;
    ghost var all := buf[..];
    BlankTake(all, p, p + |open|, n);
    BlankRange(buf, p, |open|);
    assert Contents(buf) == buf[..][..n];
    assert all[..n] == old(Contents(buf));
    assert buf[n] == buf[..][n];
    var start := p + |open|;
    var end := Search(Contents(buf), start, close);
    if end.None? {
      return None;
    }
    all := buf[..];
    BlankTake(all, start, end.value + |close|, n);
    assert all[..n] == Contents(buf);
    BlankRange(buf, start, end.value - start + |close|);
    assert Contents(buf) == buf[..][..n];
    assert buf[n] == buf[..][n];
    return Some(end.value + |close|);
  }

  /** One round of the loop; `done` when an unclosed comment ends the pass. */
  method StripRound(buf: array<byte>, p: nat, inString: bool, escaped: bool, open: bytes, close: bytes)
    returns (p': nat, inString': bool, escaped': bool, done: bool)
    requires buf.Length > 0 && buf[buf.Length - 1] == NUL && p < buf.Length && buf[p] != NUL
    requires open != [] && close != [] && NulFree(Contents(buf))
    modifies buf
    ensures buf[buf.Length - 1] == NUL && NulFree(Contents(buf))
    ensures done ==> Contents(buf) == Strip(old(Contents(buf)), p, inString, escaped, open, close)
    ensures !done ==>
              p < p' < buf.Length
              && Strip(Contents(buf), p', inString', escaped', open, close)
              == Strip(old(Contents(buf)), p, inString, escaped, open, close)
  {
    hide BlankComment, Strip;
    p', inString', escaped', done := p, inString, escaped, false;
    StripStep(Contents(buf), p, inString, escaped, open, close);
    if buf[p'] == BACKSLASH && !escaped {
      escaped' := true;
      p' := p' + 1;
      return;
    } else if buf[p'] == QUOTE && !escaped {
      inString' := !inString;
    } else if !inString && open <= Contents(buf)[p'..] {
      var next := BlankCommentInPlace(buf, p, open, close);
      if next.None? {
        done := true;
        return;
      }
      p' := next.value - 1;
    }
    escaped' := false;
    p' := p' + 1;
  }

  /** `remove_comments` on the copy of a C string: the terminator is the last byte of the buffer and its only NUL. */
  method RemoveComments(buf: array<byte>, open: bytes, close: bytes)
    requires buf.Length > 0 && buf[buf.Length - 1] == NUL && NulFree(Contents(buf))
    modifies buf
    ensures Contents(buf) == StripAll(old(Contents(buf)), open, close)
    ensures buf[buf.Length - 1] == NUL && NulFree(Contents(buf))
  {
    if |open| == 0 || |close| == 0 {
      return;
    }
    hide Strip;
    ghost var result := StripAll(Contents(buf), open, close);
    var n := buf.Length - 1;
    var inString, escaped, done := false, false, false;
    var p: nat := 0;
    while buf[p] != NUL
      invariant p <= n && buf[n] == NUL && NulFree(Contents(buf))
      invariant result == Strip(Contents(buf), p, inString, escaped, open, close)
      decreases n - p
    {
      p, inString, escaped, done := StripRound(buf, p, inString, escaped, open, close);
      if done {
        return;
      }
    }
    StripAtNul(Contents(buf), p, inString, escaped, open, close);
  }
}
