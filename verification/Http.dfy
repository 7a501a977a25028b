/**
 Receiving an HTTP response: the growing buffer, its two searches, and the loop that
 reads until the header and as many bytes as it declares have arrived.
 */
module Http {
  import opened CString
  import opened JsonNumber

  /** Carriage return and line feed, twice. */
  function Terminator(): (t: bytes)
    ensures |t| == 4
  {
    [0x0D, 0x0A, 0x0D, 0x0A]
  }

  /** "Content-Length: " */
  function ContentLength(): (t: bytes)
    ensures |t| == 16
  {
    [0x43, 0x6F, 0x6E, 0x74, 0x65, 0x6E, 0x74, 0x2D, 0x4C, 0x65, 0x6E, 0x67, 0x74, 0x68, 0x3A, 0x20]
  }

  const TERMINATOR_SIZE: nat := 4
  const CONTENT_LENGTH_SIZE: nat := 16

  const BUFLEN: nat := 4096

  // ----- what the buffer's searches find -----

  /** `tolower` in the C locale. */
  function LowerByte(c: byte): byte {
    if 0x41 <= c <= 0x5A then c + 0x20 else c
  }

  function Lower(s: bytes): (r: bytes)
    ensures |r| == |s| && forall k | 0 <= k < |s| :: r[k] == LowerByte(s[k])
  {
    seq(|s|, k requires 0 <= k < |s| => LowerByte(s[k]))
  }

  /** The leftmost place where `t` stands, or -1. */
  function Leftmost(s: bytes, t: bytes): (pos: int)
    ensures pos == -1 || (0 <= pos && At(s, pos, t))
  {
    match Search(s, 0, t)
    case None => -1
    case Some(pos) => pos
  }

  function LeftmostInsensitive(s: bytes, t: bytes): (pos: int)
    ensures pos == -1 || (0 <= pos && pos + |t| <= |s|)
  {
    Leftmost(Lower(s), Lower(t))
  }

  lemma NotFound(s: bytes, t: bytes)
    requires forall k: nat :: !At(s, k, t)
    ensures Leftmost(s, t) == -1
  {
  }

  lemma FoundAt(s: bytes, t: bytes, pos: nat)
    requires At(s, pos, t) && forall k | 0 <= k < pos :: !At(s, k, t)
    ensures Leftmost(s, t) == pos
  {
    SearchIs(s, 0, t, pos);
  }

  /** Byte by byte, what it is for `t` not to stand at `i`. */
  lemma DiffersAt(s: bytes, i: nat, t: bytes, j: nat)
    requires j < |t| && (i + j < |s| ==> s[i + j] != t[j])
    ensures !At(s, i, t)
  {
    if At(s, i, t) {
      AtIndex(s, i, t, j);
    }
  }

  /** The same byte, or the same letter in the other case. */
  predicate SameLetter(a: byte, b: byte) {
    || a == b
    || (Byte('A') <= a <= Byte('Z') && b == a + 32)
    || (Byte('A') <= b <= Byte('Z') && a == b + 32)
  }

  /** `t` stands at `p` when case is disregarded. */
  ghost predicate AtInAnyCase(s: bytes, p: nat, t: bytes) {
    p + |t| <= |s| && forall j | 0 <= j < |t| :: SameLetter(s[p + j], t[j])
  }

  lemma SameLetterIff(a: byte, b: byte)
    ensures SameLetter(a, b) <==> LowerByte(a) == LowerByte(b)
  {
  }

  lemma AtInAnyCaseIff(s: bytes, p: nat, t: bytes)
    ensures AtInAnyCase(s, p, t) <==> At(Lower(s), p, Lower(t))
  {
    if p + |t| <= |s| {
      forall j | 0 <= j < |t|
        ensures SameLetter(s[p + j], t[j]) <==> Lower(s)[p..p + |t|][j] == Lower(t)[j]
      {
        SameLetterIff(s[p + j], t[j]);
      }
      hide SameLetter, Lower, LowerByte;
      if AtInAnyCase(s, p, t) {
        assert Lower(s)[p..p + |t|] == Lower(t);
      }
    }
  }

  /** What `buffer_find_insensitive` finds: the leftmost place, letters of either case being the same. */
  lemma InsensitiveIsLeftmost(s: bytes, t: bytes)
    ensures var pos := LeftmostInsensitive(s, t);
            if pos == -1 then forall p: nat :: !AtInAnyCase(s, p, t)
            else pos >= 0 && AtInAnyCase(s, pos, t) && forall p: nat | p < pos :: !AtInAnyCase(s, p, t)
  {
    hide AtInAnyCase, At, Lower;
    forall p: nat
      ensures AtInAnyCase(s, p, t) <==> At(Lower(s), p, Lower(t))
    {
      AtInAnyCaseIff(s, p, t);
    }
  }

  class Buffer {
    var data: array<byte>
    var size: nat

    ghost predicate Valid()
      reads this
    {
      size == data.Length
    }

    ghost function Contents(): bytes
      reads this, data
    {
      data[..]
    }

    /** `buffer_init`. */
    constructor ()
      ensures Valid() && Contents() == [] && fresh(data)
    {
      data := new byte[0];
      size := 0;
    }

    /** `buffer_add`: the data may move, and what is added goes to the end. */
    method Add(piece: bytes)
      requires Valid()
      modifies this
      ensures Valid() && fresh(data) && Contents() == old(Contents()) + piece
    {
      var grown := new byte[size + |piece|];
      forall i | 0 <= i < size {
        grown[i] := data[i];
      }
      forall i | 0 <= i < |piece| {
        grown[size + i] := piece[i];
      }
      data := grown;
      size := size + |piece|;
    }

    /** `buffer_find`. */
    method Find(t: bytes) returns (pos: int)
      requires Valid()
      ensures pos == Leftmost(Contents(), t)
    {
      ghost var s := Contents();
      if |t| > size {
        NotFound(s, t);
        return -1;
      }
      var lastPos := size - |t| + 1;
      for i := 0 to lastPos
        invariant forall k | 0 <= k < i :: !At(s, k, t)
      {
        var j := 0;
        while j < |t| && data[i + j] == t[j]
          invariant j <= |t| && s[i..i + j] == t[..j]
        {
          j := j + 1;
        }
        if j == |t| {
          FoundAt(s, t, i);
          return i;
        }
        DiffersAt(s, i, t, j);
      }
      NotFound(s, t);
      return -1;
    }

    /** `buffer_find_insensitive`. */
    method FindInsensitive(t: bytes) returns (pos: int)
      requires Valid()
      ensures pos == LeftmostInsensitive(Contents(), t)
    {
      hide Lower, LowerByte;
      ghost var s, u := Lower(Contents()), Lower(t);
      if |t| > size {
        NotFound(s, u);
        return -1;
      }
      var lastPos := size - |t| + 1;
      for i := 0 to lastPos
        invariant forall k | 0 <= k < i :: !At(s, k, u)
      {
        var j := 0;
        while j < |t| && LowerByte(data[i + j]) == LowerByte(t[j])
          invariant j <= |t| && s[i..i + j] == u[..j]
        {
          assert s[i..i + j + 1] == s[i..i + j] + [LowerByte(data[i + j])];
          assert u[..j + 1] == u[..j] + [LowerByte(t[j])];
          j := j + 1;
        }
        if j == |t| {
          FoundAt(s, u, i);
          return i;
        }
        DiffersAt(s, i, u, j);
      }
      NotFound(s, u);
      return -1;
    }
  }

  // ----- the declared length -----

  const LONG_MAX: int := 0x7FFF_FFFF_FFFF_FFFF
  const INT_MAX: int := 0x7FFF_FFFF
  const SIZE_RANGE: int := 0x1_0000_0000_0000_0000

  /** `strtol` in base ten from position `p`, saturating at 64 bits. */
  function Strtol(s: bytes, p: nat): (v: int)
    requires p <= |s|
    ensures -LONG_MAX - 1 <= v <= LONG_MAX
  {
    var q := SkipSpaces(s, p);
    var d := if Peek(s, q) == MINUS || Peek(s, q) == PLUS then q + 1 else q;
    var v: int := DigitsValue(s[d..DigitsEnd(s, d)]);
    if Peek(s, q) == MINUS then
      (if v > LONG_MAX + 1 then -LONG_MAX - 1 else -v)
    else
      (if v > LONG_MAX then LONG_MAX else v)
  }

  /** A `long` stored in an `int` keeps its 32 low bits. */
  function ToInt(v: int): (r: int)
    ensures -INT_MAX - 1 <= r <= INT_MAX
    ensures -INT_MAX - 1 <= v <= INT_MAX ==> r == v
  {
    (v + INT_MAX + 1) % 0x1_0000_0000 - INT_MAX - 1
  }

  /**
   White space, a sign and digits are read as the number they spell, held within 64 bits.
   */
  lemma StrtolReads(s: bytes, p: nat, blank: bytes, sign: bytes, digits: bytes)
    requires At(s, p, blank + (sign + digits)) && digits != []
    requires forall i | 0 <= i < |blank| :: blank[i] == 0x20 || 0x09 <= blank[i] <= 0x0D
    requires sign == [] || sign == [Byte('-')] || sign == [Byte('+')]
    requires AllDigits(digits) && !IsDigit(Peek(s, p + |blank + (sign + digits)|))
    ensures var n: int := DigitsValue(digits);
            var v := if sign == [Byte('-')] then -n else n;
            Strtol(s, p)
            == if v < -0x8000_0000_0000_0000 then -0x8000_0000_0000_0000
               else if v > 0x7FFF_FFFF_FFFF_FFFF then 0x7FFF_FFFF_FFFF_FFFF else v
  {
    hide DigitsValue, Strtol, At, DigitsEnd, SkipSpaces;
    var q := p + |blank|;
    var d := q + |sign|;
    AtConcat(s, p, blank, sign + digits);
    AtConcat(s, q, sign, digits);
    WhiteSkipped(s, p, blank);
    AtFits(s, d, digits);
    AtIndex(s, d, digits, 0);
    if sign != [] {
      AtIndex(s, q, sign, 0);
    }
    SkipSpacesOver(s, p, q);
    forall i | d <= i < d + |digits|
      ensures IsDigit(s[i])
    {
      AtIndex(s, d, digits, i - d);
    }
    DigitsEndAt(s, d, d + |digits|);
    StrtolIs(s, p, q, d, d + |digits|);
  }

  lemma AtFits(s: bytes, p: nat, t: bytes)
    requires At(s, p, t)
    ensures p + |t| <= |s| && s[p..p + |t|] == t
  {
  }

  lemma WhiteSkipped(s: bytes, p: nat, blank: bytes)
    requires At(s, p, blank) && forall i | 0 <= i < |blank| :: blank[i] == 0x20 || 0x09 <= blank[i] <= 0x0D
    ensures p + |blank| <= |s| && forall i | p <= i < p + |blank| :: IsSpace(s[i])
  {
    forall i | p <= i < p + |blank|
      ensures IsSpace(s[i])
    {
      AtIndex(s, p, blank, i - p);
    }
  }

  lemma StrtolIs(s: bytes, p: nat, q: nat, d: nat, e: nat)
    requires p <= q <= d < e <= |s| && SkipSpaces(s, p) == q && DigitsEnd(s, d) == e
    requires d == if s[q] == MINUS || s[q] == PLUS then q + 1 else q
    ensures var n: int := DigitsValue(s[d..e]);
            var v := if s[q] == MINUS then -n else n;
            Strtol(s, p)
            == if v < -0x8000_0000_0000_0000 then -0x8000_0000_0000_0000
               else if v > 0x7FFF_FFFF_FFFF_FFFF then 0x7FFF_FFFF_FFFF_FFFF else v
  {
    hide DigitsValue;
  }

  // ----- receiving as a function of the reads -----

  datatype Head = Head(buf: bytes, rest: seq<bytes>, headerEnd: int, contentLength: int)

  /** The first loop: until a header with a length is there, or nothing more comes. */
  function ReadHead(buf: bytes, pieces: seq<bytes>, headerEnd: int): Head
    decreases |pieces|
  {
    if pieces == [] then
      Head(buf, [], headerEnd, 0)
    else
      var more := buf + pieces[0];
      var end := Leftmost(more, Terminator());
      if end >= 0 then
        var start := LeftmostInsensitive(more, ContentLength());
        if start < 0 then
          ReadHead(more, pieces[1..], end + TERMINATOR_SIZE)
        else
          Head(more, pieces[1..], end + TERMINATOR_SIZE, ToInt(Strtol(more, start + CONTENT_LENGTH_SIZE)))
      else
        ReadHead(more, pieces[1..], end)
  }

  /** The second loop: until the buffer has `total` bytes, or nothing more comes. */
  function ReadBody(buf: bytes, pieces: seq<bytes>, total: nat): bytes
    decreases |pieces|
  {
    if |buf| < total && pieces != [] then ReadBody(buf + pieces[0], pieces[1..], total) else buf
  }

  /** The sum that the second loop waits for, as a `size_t`. */
  function Total(headerEnd: int, contentLength: int): nat {
    (contentLength + headerEnd) % SIZE_RANGE
  }

  /** The end of the response: where it is negative it wraps to a number no stream reaches. */
  lemma TotalWraps(headerEnd: int, contentLength: int)
    requires -0x8000_0000 <= headerEnd <= 0x7FFF_FFFF && -0x8000_0000 <= contentLength <= 0x7FFF_FFFF
    ensures Total(headerEnd, contentLength) == if contentLength + headerEnd >= 0 then contentLength + headerEnd
                               else contentLength + headerEnd + 0x1_0000_0000_0000_0000
  {
  }

  function BodyAfter(h: Head): bytes {
    ReadBody(h.buf, h.rest, Total(h.headerEnd, h.contentLength))
  }

  function Received(pieces: seq<bytes>): bytes {
    BodyAfter(ReadHead([], pieces, 0)) + [NUL]
  }

  /** The first loop: `i` reads were made. */
  method ReceiveHead(buffer: Buffer, pieces: seq<bytes>) returns (i: nat, headerEnd: int, contentLength: int)
    requires buffer.Valid() && buffer.Contents() == []
    modifies buffer
    ensures buffer.Valid() && i <= |pieces|
    ensures ReadHead([], pieces, 0) == Head(buffer.Contents(), pieces[i..], headerEnd, contentLength)
  {
    hide Terminator, ContentLength, Leftmost, LeftmostInsensitive, Strtol, ToInt;
    headerEnd, contentLength, i := 0, 0, 0;
    while i < |pieces|
      invariant i <= |pieces| && buffer.Valid() && contentLength == 0
      invariant ReadHead([], pieces, 0) == ReadHead(buffer.Contents(), pieces[i..], headerEnd)
    {
      ghost var unread := pieces[i..];
      assert unread[0] == pieces[i] && unread[1..] == pieces[i + 1..];
      buffer.Add(pieces[i]);
      i := i + 1;
      headerEnd := buffer.Find(Terminator());
      if headerEnd >= 0 {
        headerEnd := headerEnd + TERMINATOR_SIZE;
        var contentLengthStart := buffer.FindInsensitive(ContentLength());
        if contentLengthStart < 0 {
          continue;
        }
        contentLengthStart := contentLengthStart + CONTENT_LENGTH_SIZE;
        contentLength := ToInt(Strtol(buffer.data[..], contentLengthStart));
        break;
      }
    }
  }

  /**
   `receive_from_server`. Each element of `pieces` is what one call of `read` delivers;
   after the last it delivers nothing.
   */
  method ReceiveFromServer(pieces: seq<bytes>) returns (response: bytes)
    ensures response == Received(pieces)
  {
    hide Terminator, ContentLength, ReadHead, Total;
    var buffer := new Buffer();
    var i, headerEnd, contentLength := ReceiveHead(buffer, pieces);
    var total := Total(headerEnd, contentLength);
    while buffer.size < total && i < |pieces|
      invariant i <= |pieces| && buffer.Valid() && fresh(buffer)
      invariant Received(pieces) == ReadBody(buffer.Contents(), pieces[i..], total) + [NUL]
      decreases |pieces| - i
    {
      ghost var unread := pieces[i..];
      assert unread[0] == pieces[i] && unread[1..] == pieces[i + 1..];
      buffer.Add(pieces[i]);
      i := i + 1;
    }
    buffer.Add([NUL]);
    return buffer.data[..];
  }

  // ----- how the stream is cut does not matter -----

  /** Everything that arrives. */
  function Join(pieces: seq<bytes>): bytes {
    if pieces == [] then [] else pieces[0] + Join(pieces[1..])
  }

  /** Some way of cutting a stream into reads of at least one byte that fit the local buffer. */
  predicate Cut(stream: bytes, pieces: seq<bytes>) {
    Join(pieces) == stream && forall k | 0 <= k < |pieces| :: 0 < |pieces[k]| <= BUFLEN
  }

  predicate AllDigits(s: bytes) {
    forall k | 0 <= k < |s| :: IsDigit(s[k])
  }

  /** The number that some bytes spell, if they are digits. */
  function Spelled(s: bytes): nat {
    if AllDigits(s) then DigitsValue(s) else 0
  }

  /**
   The header ends at `h`. Its first Content-Length, case aside, stands at `p`, and `n` is
   spelled by the digits behind it, which end at `q` before a carriage return.
   */
  predicate Framed(stream: bytes, h: nat, p: nat, q: nat, n: nat) {
    && TERMINATOR_SIZE <= h <= |stream| && p + CONTENT_LENGTH_SIZE < q < h && n <= INT_MAX
    && Leftmost(stream, Terminator()) == h - TERMINATOR_SIZE
    && LeftmostInsensitive(stream, ContentLength()) == p
    && stream[q] == RETURN && Digits(stream, p + CONTENT_LENGTH_SIZE, q, n)
  }

  predicate Digits(s: bytes, d: nat, q: nat, n: nat)
    requires d < q <= |s|
  {
    AllDigits(s[d..q]) && Spelled(s[d..q]) == n
  }

  lemma AtInPrefix(s: bytes, k: nat, pos: nat, t: bytes)
    requires k <= |s|
    ensures At(s[..k], pos, t) <==> At(s, pos, t) && pos + |t| <= k
  {
    if pos + |t| <= k {
      assert s[..k][pos..pos + |t|] == s[pos..pos + |t|];
    }
  }

  /** A prefix has the leftmost occurrence once that is complete, and no other. */
  lemma LeftmostInPrefix(s: bytes, k: nat, t: bytes)
    requires k <= |s|
    ensures var pos := Leftmost(s, t);
            Leftmost(s[..k], t) == if pos + |t| <= k then pos else -1
  {
    var pos := Leftmost(s, t);
    forall j: nat
      ensures At(s[..k], j, t) <==> At(s, j, t) && j + |t| <= k
    {
      AtInPrefix(s, k, j, t);
    }
    if pos >= 0 && pos + |t| <= k {
      FoundAt(s[..k], t, pos);
    } else {
      LeftmostIsFirst(s, t);
      NotFound(s[..k], t);
    }
  }

  lemma LeftmostIsFirst(s: bytes, t: bytes)
    ensures forall j: nat | At(s, j, t) :: 0 <= Leftmost(s, t) <= j
  {
  }

  lemma LowerOfPrefix(s: bytes, k: nat)
    requires k <= |s|
    ensures Lower(s[..k]) == Lower(s)[..k]
  {
  }

  lemma InsensitiveInPrefix(s: bytes, k: nat, t: bytes)
    requires k <= |s|
    ensures var pos := LeftmostInsensitive(s, t);
            LeftmostInsensitive(s[..k], t) == if pos + |t| <= k then pos else -1
  {
    LowerOfPrefix(s, k);
    LeftmostInPrefix(Lower(s), k, Lower(t));
  }

  lemma {:induction false} DigitsEndIs(s: bytes, p: nat, q: nat)
    requires p <= q < |s| && !IsDigit(s[q]) && forall k | p <= k < q :: IsDigit(s[k])
    ensures DigitsEnd(s, p) == q
    decreases q - p
  {
    if p < q {
      DigitsEndIs(s, p + 1, q);
    }
  }

  lemma DigitsSpell(s: bytes, d: nat, q: nat, n: nat)
    requires d < q < |s| && Digits(s, d, q, n) && s[q] == RETURN
    ensures SkipSpaces(s, d) == d && Peek(s, d) != MINUS && Peek(s, d) != PLUS
    ensures DigitsEnd(s, d) == q && DigitsValue(s[d..q]) == n
  {
    hide DigitsValue;
    assert forall k | d <= k < q :: s[k] == s[d..q][k - d] && IsDigit(s[k]);
    DigitsEndIs(s, d, q);
  }

  /** Once the header is complete, what it declares is read the same from every prefix. */
  lemma DeclaredInPrefix(stream: bytes, h: nat, p: nat, q: nat, n: nat, k: nat)
    requires Framed(stream, h, p, q, n) && h <= k <= |stream|
    ensures ToInt(Strtol(stream[..k], p + CONTENT_LENGTH_SIZE)) == n
  {
    hide Leftmost, LeftmostInsensitive, DigitsValue, DigitsEnd, ToInt;
    var s: bytes, d: nat := stream[..k], p + CONTENT_LENGTH_SIZE;
    assert s[d..q] == stream[d..q];
    DigitsSpell(s, d, q, n);
  }

  /** The first loop on a prefix of a framed stream: it goes on exactly until the header is complete. */
  lemma HeadRound(stream: bytes, h: nat, p: nat, q: nat, n: nat, k: nat, pieces: seq<bytes>, headerEnd: int)
    requires Framed(stream, h, p, q, n) && k < h && pieces != [] && Join(pieces) == stream[k..]
    ensures var k' := k + |pieces[0]|;
            && k' <= |stream| && Join(pieces[1..]) == stream[k'..]
            && ReadHead(stream[..k], pieces, headerEnd)
               == if k' < h then ReadHead(stream[..k'], pieces[1..], -1)
                  else Head(stream[..k'], pieces[1..], h, n)
  {
    hide Leftmost, LeftmostInsensitive, ToInt, Strtol;
    var k' := k + |pieces[0]|;
    JoinStep(stream, k, pieces);
    LeftmostInPrefix(stream, k', Terminator());
    InsensitiveInPrefix(stream, k', ContentLength());
    if k' >= h {
      DeclaredInPrefix(stream, h, p, q, n, k');
    }
  }

  lemma JoinStep(stream: bytes, k: nat, pieces: seq<bytes>)
    requires k <= |stream| && pieces != [] && Join(pieces) == stream[k..]
    ensures var k' := k + |pieces[0]|;
            k' <= |stream| && stream[..k] + pieces[0] == stream[..k'] && Join(pieces[1..]) == stream[k'..]
  {
    var k' := k + |pieces[0]|;
    assert stream[k..] == pieces[0] + Join(pieces[1..]);
    assert k' <= |stream|;
    assert pieces[0] == stream[k..][..|pieces[0]|] == stream[k..k'];
    assert Join(pieces[1..]) == stream[k..][|pieces[0]|..] == stream[k'..];
  }

  /** The number of bytes of the fewest first reads that make up `total` bytes, or of all reads. */
  function Reach(pieces: seq<bytes>, total: int): nat {
    if total <= 0 || pieces == [] then 0
    else |pieces[0]| + Reach(pieces[1..], total - |pieces[0]|)
  }

  lemma {:induction false} BodyReaches(stream: bytes, k: nat, pieces: seq<bytes>, total: nat)
    requires k <= |stream| && Join(pieces) == stream[k..]
    ensures k + Reach(pieces, total - k) <= |stream|
    ensures ReadBody(stream[..k], pieces, total) == stream[..k + Reach(pieces, total - k)]
    decreases |pieces|
  {
    if k < total && pieces != [] {
      JoinStep(stream, k, pieces);
      BodyReaches(stream, k + |pieces[0]|, pieces[1..], total);
    }
  }

  /** From a prefix that ends before the header does, both loops together. */
  lemma {:induction false} BothLoopsReach(stream: bytes, h: nat, p: nat, q: nat, n: nat, k: nat,
                                          pieces: seq<bytes>, headerEnd: int)
    requires Framed(stream, h, p, q, n) && k < h && Join(pieces) == stream[k..] && |stream| < SIZE_RANGE / 2
    ensures k + Reach(pieces, h + n - k) <= |stream|
    ensures BodyAfter(ReadHead(stream[..k], pieces, headerEnd)) == stream[..k + Reach(pieces, h + n - k)]
    decreases |pieces|
  {
    hide Framed, ReadHead, ReadBody;
    FramedBounds(stream, h, p, q, n);
    assert pieces != [];
    HeadRound(stream, h, p, q, n, k, pieces, headerEnd);
    var k' := k + |pieces[0]|;
    assert Reach(pieces, h + n - k) == |pieces[0]| + Reach(pieces[1..], h + n - k');
    if k' < h {
      BothLoopsReach(stream, h, p, q, n, k', pieces[1..], -1);
    } else {
      BodyReaches(stream, k', pieces[1..], h + n);
    }
  }

  lemma FramedBounds(stream: bytes, h: nat, p: nat, q: nat, n: nat)
    requires Framed(stream, h, p, q, n)
    ensures 0 < h <= |stream| && n <= INT_MAX
  {
  }

  /** What is received from any framed stream, however it is cut: the fewest reads that reach the declared end. */
  lemma ReceivedReaches(stream: bytes, h: nat, p: nat, q: nat, n: nat, pieces: seq<bytes>)
    requires Framed(stream, h, p, q, n) && Cut(stream, pieces) && |stream| < SIZE_RANGE / 2
    ensures Reach(pieces, h + n) <= |stream|
    ensures Received(pieces) == stream[..Reach(pieces, h + n)] + [NUL]
  {
    hide Framed, ReadHead, BodyAfter, Reach;
    FramedBounds(stream, h, p, q, n);
    assert stream[..0] == [] && stream[0..] == stream;
    BothLoopsReach(stream, h, p, q, n, 0, pieces, 0);
  }

  lemma {:induction false} ReachesAll(pieces: seq<bytes>, total: int)
    requires |Join(pieces)| <= total
    requires forall k | 0 <= k < |pieces| :: 0 < |pieces[k]|
    ensures Reach(pieces, total) == |Join(pieces)|
  {
    if pieces != [] {
      ReachesAll(pieces[1..], total - |pieces[0]|);
    }
  }

  /** A response that is no longer than it declares is received whole, however the stream is cut. */
  lemma ChunksDoNotMatter(stream: bytes, h: nat, p: nat, q: nat, n: nat, pieces: seq<bytes>)
    requires Framed(stream, h, p, q, n) && |stream| < SIZE_RANGE / 2 && Cut(stream, pieces)
    requires |stream| <= h + n
    ensures Received(pieces) == stream + [NUL]
  {
    hide Framed, Received;
    ReceivedReaches(stream, h, p, q, n, pieces);
    ReachesAll(pieces, h + n);
    assert stream[..|stream|] == stream;
  }

  /** One byte per read. */
  function Singles(s: bytes): (pieces: seq<bytes>)
    ensures Join(pieces) == s && forall k | 0 <= k < |pieces| :: |pieces[k]| == 1
  {
    if s == [] then [] else
      assert [s[0]] + s[1..] == s;
      [[s[0]]] + Singles(s[1..])
  }

  lemma {:induction false} SinglesReach(s: bytes, total: nat, after: seq<bytes>)
    ensures total <= |s| ==> Reach(Singles(s) + after, total) == total
    ensures total > |s| ==> Reach(Singles(s) + after, total) == |s| + Reach(after, total - |s|)
    decreases |s|
  {
    var all := Singles(s) + after;
    if s == [] {
      assert all == after;
    } else if total > 0 {
      assert all[0] == [s[0]] && all[1..] == Singles(s[1..]) + after;
      SinglesReach(s[1..], total - 1, after);
    }
  }

  lemma SinglesAreACut(s: bytes)
    ensures Cut(s, Singles(s))
  {
  }

  lemma {:induction false} JoinConcat(a: seq<bytes>, b: seq<bytes>)
    ensures Join(a + b) == Join(a) + Join(b)
  {
    if a == [] {
      assert a + b == b;
    } else {
      assert (a + b)[1..] == a[1..] + b;
      JoinConcat(a[1..], b);
    }
  }

  /** A cut that has a read of two bytes across the place `t`. */
  function Across(s: bytes, t: nat): (pieces: seq<bytes>)
    requires 0 < t < |s|
  {
    Singles(s[..t - 1]) + ([s[t - 1..t + 1]] + Singles(s[t + 1..]))
  }

  lemma AcrossIsACut(s: bytes, t: nat)
    requires 0 < t < |s|
    ensures Cut(s, Across(s, t)) && Reach(Across(s, t), t) == t + 1
  {
    hide Reach, Join;
    var after := [s[t - 1..t + 1]] + Singles(s[t + 1..]);
    TwoBytesFirst(s[t - 1..t + 1], Singles(s[t + 1..]));
    JoinConcat(Singles(s[..t - 1]), after);
    assert s[..t - 1] + (s[t - 1..t + 1] + s[t + 1..]) == s;
    SinglesReach(s[..t - 1], t, after);
  }

  lemma TwoBytesFirst(two: bytes, rest: seq<bytes>)
    requires |two| == 2
    ensures Join([two] + rest) == two + Join(rest) && Reach([two] + rest, 1) == 2
  {
    assert ([two] + rest)[1..] == rest;
  }

  /**
   Exactly when the cut does not matter: every two cuts of a framed stream give the same
   response if and only if the stream is no longer than its header declares.
   */
  lemma CutsAgreeIff(stream: bytes, h: nat, p: nat, q: nat, n: nat)
    requires Framed(stream, h, p, q, n) && |stream| < SIZE_RANGE / 2
    ensures (forall a, b | Cut(stream, a) && Cut(stream, b) :: Received(a) == Received(b))
       <==> |stream| <= h + n
  {
    hide Framed, Received, Across, Singles, Reach, Cut;
    FramedBounds(stream, h, p, q, n);
    var total := h + n;
    if |stream| <= total {
      forall a, b | Cut(stream, a) && Cut(stream, b)
        ensures Received(a) == Received(b)
      {
        ChunksDoNotMatter(stream, h, p, q, n, a);
        ChunksDoNotMatter(stream, h, p, q, n, b);
      }
    } else {
      var a, b := Singles(stream), Across(stream, total);
      AcrossIsACut(stream, total);
      SinglesAreACut(stream);
      SinglesReach(stream, total, []);
      assert a + [] == a;
      ReceivedReaches(stream, h, p, q, n, a);
      ReceivedReaches(stream, h, p, q, n, b);
      assert |Received(a)| != |Received(b)|;
    }
  }

  /** A stream without any Content-Length is received to its end, however it is cut. */
  lemma {:induction false} WithoutALength(stream: bytes, k: nat, pieces: seq<bytes>, headerEnd: int)
    requires LeftmostInsensitive(stream, ContentLength()) == -1 && k <= |stream| && Join(pieces) == stream[k..]
    ensures ReadHead(stream[..k], pieces, headerEnd).buf == stream
            && ReadHead(stream[..k], pieces, headerEnd).rest == []
    decreases |pieces|
  {
    hide Leftmost, LeftmostInsensitive, Strtol, ToInt;
    if pieces == [] {
      assert stream[..k] == stream;
    } else {
      JoinStep(stream, k, pieces);
      var k' := k + |pieces[0]|;
      InsensitiveInPrefix(stream, k', ContentLength());
      WithoutALength(stream, k', pieces[1..], Leftmost(stream[..k'], Terminator()));
      WithoutALength(stream, k', pieces[1..], Leftmost(stream[..k'], Terminator()) + TERMINATOR_SIZE);
    }
  }

  lemma ReadToTheEnd(stream: bytes, pieces: seq<bytes>)
    requires LeftmostInsensitive(stream, ContentLength()) == -1 && Cut(stream, pieces)
    ensures Received(pieces) == stream + [NUL]
  {
    hide LeftmostInsensitive, ReadHead;
    assert stream[..0] == [] && stream[0..] == stream;
    WithoutALength(stream, 0, pieces, 0);
  }

  // ----- such responses exist -----

  /** A header of one line and a body are a framed stream, whether the body is as long as declared or not. */
  lemma OneLineHeaderIsFramed(digits: bytes, body: bytes)
    requires digits != [] && AllDigits(digits) && DigitsValue(digits) <= INT_MAX
    ensures var q := CONTENT_LENGTH_SIZE + |digits|;
            var stream := ContentLength() + (digits + (Terminator() + body));
            Framed(stream, q + TERMINATOR_SIZE, 0, q, DigitsValue(digits)) && |stream| == q + TERMINATOR_SIZE + |body|
  {
    var d, q := CONTENT_LENGTH_SIZE, CONTENT_LENGTH_SIZE + |digits|;
    NoReturnInTheName();
    hide DigitsValue, ContentLength, Terminator, Lower, LowerByte;
    var stream := ContentLength() + (digits + (Terminator() + body));
    Parts(ContentLength(), digits, Terminator(), body);
    forall k | 0 <= k < q
      ensures !At(stream, k, Terminator())
    {
      assert stream[k] == if k < d then ContentLength()[k] else digits[k - d];
      DiffersAt(stream, k, Terminator(), 0);
    }
    FoundAt(stream, Terminator(), q);
    AtIndex(stream, q, Terminator(), 0);
    LowerOfPrefix(stream, d);
    FoundAt(Lower(stream), Lower(ContentLength()), 0);
  }

  lemma Parts(a: bytes, d: bytes, t: bytes, b: bytes)
    ensures var s := a + (d + (t + b));
            && |s| == |a| + |d| + |t| + |b| && s[..|a|] == a && At(s, |a| + |d|, t)
            && s[|a|..|a| + |d|] == d
            && (forall k | 0 <= k < |a| + |d| :: s[k] == if k < |a| then a[k] else d[k - |a|])
  {
    assert (d + (t + b))[..|d|] == d;
    assert (d + (t + b))[|d|..][..|t|] == t;
  }

  lemma NoReturnInTheName()
    ensures Terminator()[0] == RETURN && forall k | 0 <= k < CONTENT_LENGTH_SIZE :: ContentLength()[k] != RETURN
  {
  }

  /** A response that is longer than its header declares, and two ways to cut it that differ. */
  lemma LongerThanDeclared()
    ensures var stream := ContentLength() + ([0x31] + (Terminator() + [0x61, 0x62]));
            var h := CONTENT_LENGTH_SIZE + 1 + TERMINATOR_SIZE;
            && Framed(stream, h, 0, CONTENT_LENGTH_SIZE + 1, 1) && |stream| == h + 2
            && exists a, b :: Cut(stream, a) && Cut(stream, b) && Received(a) != Received(b)
  {
    hide Framed, Received, Cut, ContentLength, Terminator;
    OneLineHeaderIsFramed([0x31], [0x61, 0x62]);
    var stream := ContentLength() + ([0x31] + (Terminator() + [0x61, 0x62]));
    CutsAgreeIff(stream, CONTENT_LENGTH_SIZE + 1 + TERMINATOR_SIZE, 0, CONTENT_LENGTH_SIZE + 1, 1);
  }

  /** A header in other letters, spelled out: one byte is declared and two come. */
  lemma SpelledOut()
    ensures var stream := Ascii("content-length: 1") + [0x0D, 0x0A, 0x0D, 0x0A] + Ascii("ab");
            Framed(stream, 21, 0, 17, 1) && |stream| == 23
  {
    var name, stream := Ascii("content-length: "), Ascii("content-length: 1") + [0x0D, 0x0A, 0x0D, 0x0A] + Ascii("ab");
    assert Lower(name) == Lower(ContentLength());
    assert Lower(stream)[..16] == Lower(name);
    forall k: nat | k < 17
      ensures !At(stream, k, Terminator())
    {
      DiffersAt(stream, k, Terminator(), 0);
    }
    assert stream[17..21] == Terminator();
    FoundAt(stream, Terminator(), 17);
    FoundAt(Lower(stream), Lower(ContentLength()), 0);
    assert stream[16..17] == [0x31];
    hide Leftmost, LeftmostInsensitive, Lower, LowerByte;
    OneDigit();
  }

  lemma OneDigit()
    ensures AllDigits([0x31]) && Spelled([0x31]) == 1
  {
  }
}
