/**
 Headers with a 16-bit checksum field: what storing the checksum achieves, and what the
 router's own test of a received header decides.
 */
module IpHeader {
  import opened CString
  import opened Checksum

  /** The 16-bit number at position `f`. */
  function Field(h: bytes, f: nat): (r: nat)
    requires f + 2 <= |h|
    ensures r <= 0xFFFF
  {
    h[f] as int * 256 + h[f + 1]
  }

  function WithField(h: bytes, f: nat, c: nat): (r: bytes)
    requires f + 2 <= |h| && c <= 0xFFFF
    ensures |r| == |h|
  {
    h[f := c / 256][f + 1 := c % 256]
  }

  function Zeroed(h: bytes, f: nat): bytes
    requires f + 2 <= |h|
  {
    WithField(h, f, 0)
  }

  /** The receiver's rule of RFC 1071 section 1: the sum over everything is all ones. */
  predicate Valid(h: bytes) {
    OcSum(h) == 0xFFFF
  }

  /** The checksum field holds what `ip_checksum` computes over the header with that field zero. */
  ghost predicate Stamped(h: bytes, f: nat)
    requires f + 2 <= |h|
  {
    Field(h, f) == InternetChecksum(Zeroed(h, f))
  }

  lemma {:induction false} Sum16Concat(a: bytes, b: bytes, o: nat)
    ensures Sum16(a + b, o) == Sum16(a, o) + Sum16(b, o + |a|)
    decreases |a|
  {
    if a == [] {
      assert a + b == b;
    } else {
      assert (a + b)[1..] == a[1..] + b;
      Sum16Concat(a[1..], b, o + 1);
    }
  }

  /** At an even position the field counts with its value. */
  lemma FieldCounts(h: bytes, f: nat, c: nat)
    requires f + 2 <= |h| && f % 2 == 0 && c <= 0xFFFF
    ensures Sum16(WithField(h, f, c), 0) == Sum16(Zeroed(h, f), 0) + c
  {
    var before, after := h[..f], h[f + 2..];
    var x: byte, y: byte := c / 256, c % 256;
    assert WithField(h, f, c) == before + ([x, y] + after);
    assert Zeroed(h, f) == before + ([0, 0] + after);
    Sum16Concat(before, [x, y] + after, 0);
    Sum16Concat(before, [0, 0] + after, 0);
    Sum16Concat([x, y], after, f);
    Sum16Concat([0, 0], after, f);
    TwoBytes(x, y, f);
    TwoBytes(0, 0, f);
  }

  lemma TwoBytes(x: byte, y: byte, f: nat)
    requires f % 2 == 0
    ensures Sum16([x, y], f) == x as int * 256 + y
  {
    assert [x, y][1..] == [y];
    assert Sum16([y], f + 1) == y as int + Sum16([], f + 2);
  }

  lemma FieldsAgree(h: bytes, f: nat)
    requires f + 2 <= |h|
    ensures WithField(h, f, Field(h, f)) == h
  {
    assert Field(h, f) / 256 == h[f] && Field(h, f) % 256 == h[f + 1];
    assert h[f := h[f]][f + 1 := h[f + 1]] == h;
  }

  lemma FieldAfterStore(h: bytes, f: nat, c: nat)
    requires f + 2 <= |h| && c <= 0xFFFF
    ensures Field(WithField(h, f, c), f) == c && Zeroed(WithField(h, f, c), f) == Zeroed(h, f)
  {
    assert c == c / 256 * 256 + c % 256;
  }

  /** Storing the computed checksum makes the sum all ones, for every header that is not zero throughout. */
  lemma StampedIsValid(h: bytes, f: nat)
    requires f + 2 <= |h| && f % 2 == 0 && Stamped(h, f)
    ensures Valid(h) <==> !AllZero(Zeroed(h, f))
  {
    hide OcSum, Sum16, AllZero;
    FieldsAgree(h, f);
    FieldCounts(h, f, Field(h, f));
    OcSumIsReducedSum(h);
    OcSumIsReducedSum(Zeroed(h, f));
    ZeroSumIsAllZero(Zeroed(h, f), 0);
    if !AllZero(Zeroed(h, f)) {
      ReduceComplement(Sum16(Zeroed(h, f), 0), Field(h, f));
    }
  }

  /** Where a positive sum and a 16-bit number add up to all ones. */
  lemma ReduceComplement(w: nat, c: nat)
    requires w > 0 && c <= 0xFFFF
    ensures Reduce(w + c) == 0xFFFF <==> c == 0xFFFF - Reduce(w) || (c == 0xFFFF && Reduce(w) == 0xFFFF)
  {
    var q := (w - 1) / 65535;
    assert w == 65535 * q + Reduce(w);
    assert w + c - 1 == 65535 * q + (Reduce(w) + c - 1);
  }

  /**
   What the router's test accepts: the headers that are valid by the receiver's rule,
   except those that spell a zero checksum as all ones, and the header of zeros.
   */
  lemma StampedIff(h: bytes, f: nat)
    requires f + 2 <= |h| && f % 2 == 0
    ensures Stamped(h, f) <==> (Valid(h) && Field(h, f) != 0xFFFF) || AllZero(h)
  {
    hide OcSum, Sum16, AllZero;
    FieldsAgree(h, f);
    FieldCounts(h, f, Field(h, f));
    OcSumIsReducedSum(h);
    OcSumIsReducedSum(Zeroed(h, f));
    ZeroSumIsAllZero(Zeroed(h, f), 0);
    ZeroSumIsAllZero(h, 0);
    if !AllZero(Zeroed(h, f)) {
      ReduceComplement(Sum16(Zeroed(h, f), 0), Field(h, f));
    }
  }

  /** From 10.0.0.1 to 112.225.0.0, time to live 64; the other fields add up so that the checksum is zero. */
  const REFUSED: bytes := [0x45, 0, 0, 0x1C, 0, 0, 0, 0, 0x40, 1, 0xFF, 0xFF, 0x0A, 0, 0, 1, 0x70, 0xE1, 0, 0]

  lemma OcSumStep(h: bytes, k: nat)
    requires k + 2 <= |h|
    ensures OcSum(h[k..]) == OcAdd(Field(h, k), OcSum(h[k + 2..]))
  {
    assert h[k..][2..] == h[k + 2..];
  }

  lemma OcSumEnds(h: bytes)
    ensures OcSum(h[|h|..]) == 0 && h[0..] == h
  {
  }

  lemma RefusedFromTheChecksumOn()
    ensures OcSum(REFUSED[10..]) == 0x7AE2
  {
    hide OcSum;
    OcSumEnds(REFUSED);
    OcSumStep(REFUSED, 18);
    OcSumStep(REFUSED, 16);
    OcSumStep(REFUSED, 14);
    OcSumStep(REFUSED, 12);
    OcSumStep(REFUSED, 10);
  }

  lemma RefusedSum()
    ensures OcSum(REFUSED) == 0xFFFF
  {
    hide OcSum;
    RefusedFromTheChecksumOn();
    OcSumStep(REFUSED, 8);
    OcSumStep(REFUSED, 6);
    OcSumStep(REFUSED, 4);
    OcSumStep(REFUSED, 2);
    OcSumStep(REFUSED, 0);
    OcSumEnds(REFUSED);
  }

  /** A header that is valid and still refused: its checksum is zero, written as all ones. */
  lemma ValidButRefused()
    ensures |REFUSED| == 20 && Valid(REFUSED) && !Stamped(REFUSED, 10)
  {
    hide OcSum, Stamped;
    RefusedSum();
    assert REFUSED[0] == 0x45 && Field(REFUSED, 10) == 0xFFFF;
    StampedIff(REFUSED, 10);
  }

  /** `n` bytes at `a` change places with `n` bytes at `b`. */
  function Exchange(s: bytes, a: nat, b: nat, n: nat): (r: bytes)
    requires a + n <= b && b + n <= |s|
    ensures |r| == |s|
  {
    s[..a] + (s[b..b + n] + (s[a + n..b] + (s[a..a + n] + s[b + n..])))
  }

  /** Byte by byte, what an exchange gives. */
  function Exchanged(s: bytes, a: nat, b: nat, n: nat, i: nat): byte
    requires a + n <= b && b + n <= |s| && i < |s|
  {
    if a <= i < a + n then s[i - a + b] else if b <= i < b + n then s[i - b + a] else s[i]
  }

  lemma ExchangeByte(s: bytes, a: nat, b: nat, n: nat, i: nat)
    requires a + n <= b && b + n <= |s| && i < |s|
    ensures Exchange(s, a, b, n)[i] == Exchanged(s, a, b, n, i)
  {
    FivePartsAt(s[..a], s[b..b + n], s[a + n..b], s[a..a + n], s[b + n..], i);
  }

  lemma FivePartsAt(p: bytes, y: bytes, q: bytes, x: bytes, r: bytes, i: nat)
    requires i < |p| + |y| + |q| + |x| + |r|
    ensures (p + (y + (q + (x + r))))[i]
         == if i < |p| then p[i]
            else if i < |p| + |y| then y[i - |p|]
            else if i < |p| + |y| + |q| then q[i - |p| - |y|]
            else if i < |p| + |y| + |q| + |x| then x[i - |p| - |y| - |q|]
            else r[i - |p| - |y| - |q| - |x|]
  {
  }

  lemma Cut(s: bytes, a: nat, b: nat, n: nat)
    requires a + n <= b && b + n <= |s|
    ensures s == s[..a] + (s[a..a + n] + (s[a + n..b] + (s[b..b + n] + s[b + n..])))
  {
    assert s[b..b + n] + s[b + n..] == s[b..];
    assert s[a + n..b] + s[b..] == s[a + n..];
    assert s[a..a + n] + s[a + n..] == s[a..];
    assert s[..a] + s[a..] == s;
  }

  lemma ExchangeParts(s: bytes, a: nat, b: nat, n: nat)
    requires a + n <= b && b + n <= |s|
    ensures Exchange(s, a, b, n) == s[..a] + (s[b..b + n] + (s[a + n..b] + (s[a..a + n] + s[b + n..])))
  {
  }

  /** Exchanging two fields at even distance does not change the sum, so a stamped header stays stamped. */
  lemma ExchangeKeepsSum(s: bytes, a: nat, b: nat, n: nat)
    requires a + n <= b && b + n <= |s| && a % 2 == b % 2
    ensures Sum16(Exchange(s, a, b, n), 0) == Sum16(s, 0)
  {
    hide Sum16, Exchange;
    EvenDistance(a, b);
    ExchangedParts(s[..a], s[a..a + n], s[a + n..b], s[b..b + n], s[b + n..]);
    Cut(s, a, b, n);
    ExchangeParts(s, a, b, n);
  }

  lemma EvenDistance(a: nat, b: nat)
    requires a <= b && a % 2 == b % 2
    ensures (b - a) % 2 == 0
  {
  }

  lemma ExchangedParts(p: bytes, x: bytes, q: bytes, y: bytes, r: bytes)
    requires |x| == |y| && (|x| + |q|) % 2 == 0
    ensures Sum16(p + (y + (q + (x + r))), 0) == Sum16(p + (x + (q + (y + r))), 0)
  {
    hide Sum16;
    FiveParts(p, x, q, y, r);
    FiveParts(p, y, q, x, r);
    Sum16Parity(x, |p|, |p| + |x| + |q|);
    Sum16Parity(y, |p|, |p| + |x| + |q|);
  }

  lemma ExchangeKeepsOcSum(s: bytes, a: nat, b: nat, n: nat)
    requires a + n <= b && b + n <= |s| && a % 2 == b % 2
    ensures OcSum(Exchange(s, a, b, n)) == OcSum(s)
  {
    hide Sum16, OcSum, Exchange;
    ExchangeKeepsSum(s, a, b, n);
    OcSumIsReducedSum(s);
    OcSumIsReducedSum(Exchange(s, a, b, n));
  }

  lemma FiveParts(p: bytes, x: bytes, q: bytes, y: bytes, r: bytes)
    ensures Sum16(p + (x + (q + (y + r))), 0)
         == Sum16(p, 0) + Sum16(x, |p|) + Sum16(q, |p| + |x|) + Sum16(y, |p| + |x| + |q|)
            + Sum16(r, |p| + |x| + |q| + |y|)
  {
    hide Sum16;
    Sum16Concat(p, x + (q + (y + r)), 0);
    Sum16Concat(x, q + (y + r), |p|);
    Sum16Concat(q, y + r, |p| + |x|);
    Sum16Concat(y, r, |p| + |x| + |q|);
  }
}
