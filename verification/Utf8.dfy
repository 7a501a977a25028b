/**
 UTF-8 as RFC 3629 section 3 defines it, and parson's validator for it.

 The C code works with shifts and masks on bytes; on the values 0..255 these are
 the divisions and remainders by powers of two written here
 (`b & 0x3F` is `b % 64`, `(c & 0xE0) == 0xC0` is `c / 32 == 6`, and so on).
 */
module Utf8 {
  import opened CString

  /** A Unicode scalar value: a code point that is not a surrogate. */
  predicate Scalar(cp: int) {
    0 <= cp <= 0x10FFFF && !(0xD800 <= cp <= 0xDFFF)
  }

  /** The encoding of one code point, by the bit distribution of RFC 3629 section 3. */
  function Encode(cp: nat): (r: bytes)
    requires cp <= 0x10FFFF
    ensures 1 <= |r| <= 4
  {
    if cp < 0x80 then [cp]
    else if cp < 0x800 then [0xC0 + cp / 64, 0x80 + cp % 64]
    else if cp < 0x10000 then [0xE0 + cp / 4096, 0x80 + cp / 64 % 64, 0x80 + cp % 64]
    else [0xF0 + cp / 262144, 0x80 + cp / 4096 % 64, 0x80 + cp / 64 % 64, 0x80 + cp % 64]
  }

  ghost predicate Scalars(cps: seq<nat>) {
    forall i | 0 <= i < |cps| :: Scalar(cps[i])
  }

  ghost function EncodeAll(cps: seq<nat>): (r: bytes)
    requires Scalars(cps)
    ensures |cps| <= |r|
  {
    if cps == [] then [] else Encode(cps[0]) + EncodeAll(cps[1..])
  }

  /** Valid UTF-8: a concatenation of encodings of scalar values. */
  ghost predicate Valid(s: bytes) {
    exists cps: seq<nat> :: Scalars(cps) && EncodeAll(cps) == s
  }

  predicate IsContinuation(b: byte) {
    b / 64 == 2
  }

  function NumBytesInSequence(c: byte): (n: nat)
    ensures n <= 4
  {
    if c == 0xC0 || c == 0xC1 || c > 0xF4 || IsContinuation(c) then 0
    else if c < 0x80 then 1
    else if c / 32 == 6 then 2
    else if c / 16 == 14 then 3
    else if c / 8 == 30 then 4
    else 0
  }

  /** The six bits a continuation byte carries. */
  function Payload(b: byte): nat {
    b % 64
  }

  /** The code point the lead byte and `n - 1` continuation bytes at `p` spell. */
  function CodePoint(s: bytes, p: nat, n: nat): nat
    requires 1 <= n <= 4 && p + n <= |s|
  {
    var lead: int := s[p];
    if n == 1 then lead
    else if n == 2 then lead % 32 * 64 + Payload(s[p + 1])
    else if n == 3 then lead % 16 * 4096 + Payload(s[p + 1]) * 64 + Payload(s[p + 2])
    else lead % 8 * 262144 + Payload(s[p + 1]) * 4096 + Payload(s[p + 2]) * 64 + Payload(s[p + 3])
  }

  /** `n - 1` continuation bytes follow position `p`; none of them is looked at beyond the first failure. */
  predicate Continued(s: bytes, p: nat, n: nat)
    requires p < |s|
  {
    && (n >= 2 ==> IsContinuation(Peek(s, p + 1)))
    && (n >= 3 ==> IsContinuation(Peek(s, p + 2)))
    && (n >= 4 ==> IsContinuation(Peek(s, p + 3)))
  }

  /** The length of the sequence at `p` that `verify_utf8_sequence` accepts, or 0 when it refuses. */
  function VerifySequence(s: bytes, p: nat): (len: nat)
    requires p < |s|
    ensures len <= 4 && p + len <= |s|
  {
    var n := NumBytesInSequence(s[p]);
    if n == 0 || !Continued(s, p, n) then 0
    else
      var cp := CodePoint(s, p, n);
      if (cp < 0x80 && n > 1) || (cp < 0x800 && n > 2) || (cp < 0x10000 && n > 3) then 0
      else if cp > 0x10FFFF then 0
      else if 0xD800 <= cp <= 0xDFFF then 0
      else n
  }

  /** Six-bit digits: taking a code point apart and putting it together again. */
  lemma SixBits(cp: nat)
    requires cp <= 0x10FFFF
    ensures cp == cp / 64 * 64 + cp % 64
    ensures cp == cp / 4096 * 4096 + cp / 64 % 64 * 64 + cp % 64
    ensures cp == cp / 262144 * 262144 + cp / 4096 % 64 * 4096 + cp / 64 % 64 * 64 + cp % 64
  {
  }

  lemma DivMod64(q: nat, r: nat)
    requires r < 64
    ensures (q * 64 + r) / 64 == q && (q * 64 + r) % 64 == r
  {
  }

  lemma SixBitsUnique(d3: nat, d2: nat, d1: nat, d0: nat)
    requires d3 < 8 && d2 < 64 && d1 < 64 && d0 < 64
    ensures var cp := d3 * 262144 + d2 * 4096 + d1 * 64 + d0;
            cp / 262144 == d3 && cp / 4096 % 64 == d2 && cp / 64 % 64 == d1 && cp % 64 == d0
            && cp / 64 == d3 * 4096 + d2 * 64 + d1 && cp / 4096 == d3 * 64 + d2
  {
    var top2 := d3 * 64 + d2;
    var top3 := top2 * 64 + d1;
    var cp := top3 * 64 + d0;
    DivMod64(top3, d0);
    DivMod64(top2, d1);
    DivMod64(d3, d2);
    assert cp / 4096 == cp / 64 / 64;
    assert cp / 262144 == cp / 4096 / 64;
  }

  lemma LeadByteParts(c: byte)
    ensures NumBytesInSequence(c) == 1 ==> c < 0x80
    ensures NumBytesInSequence(c) == 2 ==> c == 0xC0 + c % 32
    ensures NumBytesInSequence(c) == 3 ==> c == 0xE0 + c % 16
    ensures NumBytesInSequence(c) == 4 ==> c == 0xF0 + c % 8
  {
  }

  lemma ContinuationParts(b: byte)
    requires IsContinuation(b)
    ensures b == 0x80 + Payload(b) && Payload(b) < 64
  {
  }

  lemma LeadBytes(d: nat)
    ensures 2 <= d < 32 ==> NumBytesInSequence(0xC0 + d) == 2 && (0xC0 + d) % 32 == d
    ensures d < 16 ==> NumBytesInSequence(0xE0 + d) == 3 && (0xE0 + d) % 16 == d
    ensures d <= 4 ==> NumBytesInSequence(0xF0 + d) == 4 && (0xF0 + d) % 8 == d
  {
  }

  lemma ContinuationByte(d: nat)
    requires d < 64
    ensures IsContinuation(0x80 + d) && Payload(0x80 + d) == d
  {
  }

  /**
   Taking an encoding apart: its lead byte tells the length, the rest continues it, and
   the bits are those of `cp`.
   */
  lemma DecodeEncoded(cp: nat)
    requires cp <= 0x10FFFF
    ensures var e := Encode(cp);
            NumBytesInSequence(e[0]) == |e| && Continued(e, 0, |e|) && CodePoint(e, 0, |e|) == cp
  {
    if cp < 0x80 {
      return;
    }
    hide IsContinuation, Payload, NumBytesInSequence;
    SixBits(cp);
    ContinuationByte(cp % 64);
    ContinuationByte(cp / 64 % 64);
    ContinuationByte(cp / 4096 % 64);
    LeadBytes(if cp < 0x800 then cp / 64 else if cp < 0x10000 then cp / 4096 else cp / 262144);
  }

  /** Only the encodings of ASCII start with a byte below 0x80, and no other has one. */
  lemma EncodingIsHigh(cp: nat)
    requires cp <= 0x10FFFF && Encode(cp)[0] >= 0x80
    ensures forall i | 0 <= i < |Encode(cp)| :: Encode(cp)[i] >= 0x80
  {
  }

  /** Putting the bits of a sequence together and encoding them gives the sequence back, unless it is overlong. */
  lemma EncodeDecoded(e: bytes)
    requires 1 <= |e| <= 4 && NumBytesInSequence(e[0]) == |e| && Continued(e, 0, |e|)
    requires var cp := CodePoint(e, 0, |e|);
             cp <= 0x10FFFF && (|e| > 1 ==> cp >= 0x80) && (|e| > 2 ==> cp >= 0x800) && (|e| > 3 ==> cp >= 0x10000)
    ensures Encode(CodePoint(e, 0, |e|)) == e
  {
    hide IsContinuation, NumBytesInSequence, Payload;
    LeadByteParts(e[0]);
    var lead: int := e[0];
    if |e| == 2 {
      ContinuationParts(e[1]);
      SixBitsUnique(0, 0, lead % 32, Payload(e[1]));
    } else if |e| == 3 {
      ContinuationParts(e[1]);
      ContinuationParts(e[2]);
      SixBitsUnique(0, lead % 16, Payload(e[1]), Payload(e[2]));
    } else if |e| == 4 {
      ContinuationParts(e[1]);
      ContinuationParts(e[2]);
      ContinuationParts(e[3]);
      SixBitsUnique(lead % 8, Payload(e[1]), Payload(e[2]), Payload(e[3]));
    }
  }

  lemma SequenceAt(s: bytes, p: nat, n: nat)
    requires p < |s| && 1 <= n <= 4
    ensures Continued(s, p, n) ==> p + n <= |s|
    ensures p + n <= |s| ==> (Continued(s, p, n) <==> Continued(s[p..p + n], 0, n))
                             && CodePoint(s, p, n) == CodePoint(s[p..p + n], 0, n)
  {
  }

  lemma VerifyAcceptsEncodings(s: bytes, p: nat, cp: nat)
    requires Scalar(cp) && p < |s| && At(s, p, Encode(cp))
    ensures VerifySequence(s, p) == |Encode(cp)|
    ensures CodePoint(s, p, |Encode(cp)|) == cp
  {
    var e := Encode(cp);
    DecodeEncoded(cp);
    AtIndex(s, p, e, 0);
    EncodingLength(cp);
    hide Encode, CodePoint, Continued, NumBytesInSequence;
    SequenceAt(s, p, |e|);
  }

  lemma EncodingLength(cp: nat)
    requires cp <= 0x10FFFF
    ensures (cp < 0x80 <==> |Encode(cp)| == 1) && (cp < 0x800 <==> |Encode(cp)| <= 2)
            && (cp < 0x10000 <==> |Encode(cp)| <= 3)
  {
  }

  lemma VerifyOnlyEncodings(s: bytes, p: nat) returns (cp: nat)
    requires p < |s| && VerifySequence(s, p) > 0
    ensures Scalar(cp) && At(s, p, Encode(cp)) && |Encode(cp)| == VerifySequence(s, p)
  {
    hide Encode, CodePoint, Continued, NumBytesInSequence;
    var n := NumBytesInSequence(s[p]);
    SequenceAt(s, p, n);
    cp := CodePoint(s, p, n);
    EncodeDecoded(s[p..p + n]);
  }

  /** Two encodings at one place are the same: the code is a prefix code. */
  lemma EncodingIsUnique(s: bytes, p: nat, a: nat, b: nat)
    requires Scalar(a) && Scalar(b)
    requires p < |s| && At(s, p, Encode(a)) && At(s, p, Encode(b))
    ensures a == b
  {
    VerifyAcceptsEncodings(s, p, a);
    VerifyAcceptsEncodings(s, p, b);
  }

  /**
   What `is_valid_utf8` accepts. It is given a length, but it only looks at that
   length between sequences, so the last sequence may reach behind it.
   */
  predicate IsValid(s: bytes, p: nat, len: nat)
    requires len <= |s|
    decreases |s| - p
  {
    if p >= len then true
    else
      var n := VerifySequence(s, p);
      n > 0 && IsValid(s, p + n, len)
  }

  /** `is_valid_utf8`: one accepted sequence after the other until the length is used up. */
  method IsValidUtf8(s: bytes, len: nat) returns (ok: bool)
    requires len <= |s|
    ensures ok == IsValid(s, 0, len)
    ensures len == |s| ==> (ok <==> Valid(s))
  {
    if len == |s| {
      ValidIffScanned(s, 0);
      assert s[0..] == s;
    }
    var p := 0;
    while p < len
      invariant p <= |s|
      invariant IsValid(s, 0, len) == IsValid(s, p, len)
      decreases |s| - p
    {
      var n := VerifySequence(s, p);
      if n == 0 {
        return false;
      }
      p := p + n;
    }
    return true;
  }

  /** With the whole string in view the validator accepts exactly the valid UTF-8 texts. */
  lemma ValidIffScanned(s: bytes, p: nat)
    requires p <= |s|
    ensures IsValid(s, p, |s|) <==> Valid(s[p..])
  {
    if IsValid(s, p, |s|) {
      ScannedIsValid(s, p);
    }
    if Valid(s[p..]) {
      var cps :| Scalars(cps) && EncodeAll(cps) == s[p..];
      ValidIsScanned(s, p, cps);
    }
  }

  lemma {:induction false} ScannedIsValid(s: bytes, p: nat)
    requires p <= |s| && IsValid(s, p, |s|)
    ensures Valid(s[p..])
    decreases |s| - p
  {
    hide Encode, VerifySequence;
    if p == |s| {
      assert EncodeAll([]) == s[p..];
    } else {
      var cp := VerifyOnlyEncodings(s, p);
      var n := |Encode(cp)|;
      ScannedIsValid(s, p + n);
      ValidCons(cp, s[p + n..]);
      assert s[p..] == s[p..p + n] + s[p + n..];
    }
  }

  lemma {:induction false} ValidIsScanned(s: bytes, p: nat, cps: seq<nat>)
    requires p <= |s| && Scalars(cps) && EncodeAll(cps) == s[p..]
    ensures IsValid(s, p, |s|)
    decreases |cps|
  {
    hide Encode;
    if cps != [] {
      var n := |Encode(cps[0])|;
      assert s[p..p + n] == s[p..][..n];
      VerifyAcceptsEncodings(s, p, cps[0]);
      assert s[p + n..] == s[p..][n..];
      ValidIsScanned(s, p + n, cps[1..]);
    }
  }

  lemma ValidCons(cp: nat, rest: bytes)
    requires Scalar(cp) && Valid(rest)
    ensures Valid(Encode(cp) + rest)
  {
    var cps :| Scalars(cps) && EncodeAll(cps) == rest;
    assert ([cp] + cps)[1..] == cps;
    assert EncodeAll([cp] + cps) == Encode(cp) + rest;
  }

  lemma {:induction false} ValidConcat(a: bytes, b: bytes)
    requires Valid(a) && Valid(b)
    ensures Valid(a + b)
  {
    var cps :| Scalars(cps) && EncodeAll(cps) == a;
    ValidPrepend(cps, b);
  }

  lemma {:induction false} ValidPrepend(cps: seq<nat>, b: bytes)
    requires Scalars(cps) && Valid(b)
    ensures Valid(EncodeAll(cps) + b)
  {
    if cps == [] {
      assert EncodeAll(cps) + b == b;
    } else {
      ValidPrepend(cps[1..], b);
      ValidCons(cps[0], EncodeAll(cps[1..]) + b);
      assert EncodeAll(cps) + b == Encode(cps[0]) + (EncodeAll(cps[1..]) + b);
    }
  }

  /**
   For a length that cuts the string, acceptance means: some valid text starts the
   string, reaches the length, and does so only with its last character.
   */
  ghost predicate Reaches(s: bytes, p: nat, len: nat, cps: seq<nat>)
    requires p <= |s| && len <= |s|
  {
    && Scalars(cps)
    && At(s, p, EncodeAll(cps))
    && p + |EncodeAll(cps)| >= len
    && forall k | 0 <= k < |cps| :: p + |EncodeAll(cps[..k])| < len
  }

  lemma AcceptedIffReached(s: bytes, p: nat, len: nat)
    requires p <= |s| && len <= |s|
    ensures IsValid(s, p, len) <==> exists cps: seq<nat> :: Reaches(s, p, len, cps)
  {
    if IsValid(s, p, len) {
      var cps := AcceptedIsReached(s, p, len);
    }
    if exists cps: seq<nat> :: Reaches(s, p, len, cps) {
      var cps :| Reaches(s, p, len, cps);
      ReachedIsAccepted(s, p, len, cps);
    }
  }

  lemma {:induction false} AcceptedIsReached(s: bytes, p: nat, len: nat) returns (cps: seq<nat>)
    requires p <= |s| && len <= |s| && IsValid(s, p, len)
    ensures Reaches(s, p, len, cps)
    decreases |s| - p
  {
    cps := [];
    if p < len {
      var cp := VerifyOnlyEncodings(s, p);
      var rest := AcceptedIsReached(s, p + |Encode(cp)|, len);
      cps := [cp] + rest;
      ReachesCons(s, p, len, cps);
    }
  }

  lemma {:induction false} ReachedIsAccepted(s: bytes, p: nat, len: nat, cps: seq<nat>)
    requires p <= |s| && len <= |s| && Reaches(s, p, len, cps)
    ensures IsValid(s, p, len)
    decreases |cps|
  {
    if p < len {
      ReachesCons(s, p, len, cps);
      VerifyAcceptsEncodings(s, p, cps[0]);
      ReachedIsAccepted(s, p + |Encode(cps[0])|, len, cps[1..]);
    }
  }

  lemma ReachesCons(s: bytes, p: nat, len: nat, cps: seq<nat>)
    requires p < len <= |s| && cps != [] && Scalar(cps[0])
    ensures Reaches(s, p, len, cps) <==>
            var q := p + |Encode(cps[0])|;
            At(s, p, Encode(cps[0])) && Reaches(s, q, len, cps[1..])
  {
    hide Encode;
    var c, rest := Encode(cps[0]), cps[1..];
    assert Scalars(cps) <==> Scalars(rest) by {
      assert forall i | 0 < i < |cps| :: cps[i] == rest[i - 1];
    }
    if Scalars(cps) {
      AtConcat(s, p, c, EncodeAll(rest));
      if Reaches(s, p, len, cps) {
        forall k | 0 <= k < |rest|
          ensures p + |c| + |EncodeAll(rest[..k])| < len
        {
          EncodeTake(cps, k);
          assert p + |EncodeAll(cps[..k + 1])| < len;
        }
      }
      if At(s, p, c) && Reaches(s, p + |c|, len, rest) {
        forall k | 0 <= k < |cps|
          ensures p + |EncodeAll(cps[..k])| < len
        {
          if k > 0 {
            EncodeTake(cps, k - 1);
          }
        }
      }
    }
  }

  lemma EncodeTake(cps: seq<nat>, k: nat)
    requires Scalars(cps) && k < |cps|
    ensures EncodeAll(cps[..k + 1]) == Encode(cps[0]) + EncodeAll(cps[1..][..k])
  {
    assert cps[..k + 1][1..] == cps[1..][..k];
  }

  // ----- when the length may be trusted -----

  /** The scan from `p` takes one sequence after the other, and the last one starts before `len` and ends behind it. */
  predicate Overruns(s: bytes, p: nat, len: nat)
    requires len <= |s|
    decreases |s| - p
  {
    if p >= len then p > len
    else
      var n := VerifySequence(s, p);
      n > 0 && Overruns(s, p + n, len)
  }

  /** A sequence that the cut goes through is refused in the piece; any other is judged alike. */
  lemma VerifyInPiece(s: bytes, p: nat, len: nat)
    requires p < len <= |s|
    ensures var n := VerifySequence(s, p);
            VerifySequence(s[..len], p) == if p + n <= len then n else 0
  {
    var t, n := s[..len], NumBytesInSequence(s[p]);
    assert t[p] == s[p];
    if p + n > len {
      assert Peek(t, len) == NUL && !IsContinuation(NUL);
      assert len == p + 1 || len == p + 2 || len == p + 3;
      assert !Continued(t, p, n);
    }
  }

  /** A sequence that is accepted has continuation bytes behind its first byte. */
  lemma ContinuedInside(s: bytes, p: nat, k: nat)
    requires p < |s| && p < k < p + VerifySequence(s, p)
    ensures k < |s| && IsContinuation(s[k])
  {
  }

  /** From any position: accepted and not valid as a piece, if and only if the scan overruns the length. */
  lemma {:induction false} AcceptedButCutIff(s: bytes, p: nat, len: nat)
    requires p <= len <= |s|
    ensures Overruns(s, p, len) ==> IsValid(s, p, len) && !IsValid(s[..len], p, len)
    ensures !Overruns(s, p, len) ==> (IsValid(s, p, len) <==> IsValid(s[..len], p, len))
    decreases len - p
  {
    hide VerifySequence;
    if p < len {
      VerifyInPiece(s, p, len);
      var n := VerifySequence(s, p);
      if 0 < n && p + n <= len {
        AcceptedButCutIff(s, p + n, len);
      } else if 0 < n {
        assert Overruns(s, p + n, len) && IsValid(s, p + n, len);
      }
    }
  }

  /** The validator's answer and the validity of the piece differ exactly where a sequence crosses the length. */
  lemma CutIsAcceptedIff(s: bytes, len: nat)
    requires len <= |s|
    ensures Valid(s[..len]) ==> IsValid(s, 0, len)
    ensures IsValid(s, 0, len) && !Valid(s[..len]) <==> Overruns(s, 0, len)
  {
    AcceptedButCutIff(s, 0, len);
    var t := s[..len];
    ValidIffScanned(t, 0);
    assert t[0..] == t;
  }

  lemma {:induction false} OverrunCrossesAContinuation(s: bytes, p: nat, len: nat)
    requires p <= len <= |s| && Overruns(s, p, len)
    ensures len < |s| && IsContinuation(s[len])
    decreases len - p
  {
    hide VerifySequence, IsContinuation;
    var n := VerifySequence(s, p);
    if p + n <= len {
      OverrunCrossesAContinuation(s, p + n, len);
    } else {
      ContinuedInside(s, p, len);
    }
  }

  /**
   A caller can tell: at the end of the string, or in front of a byte that continues
   nothing, accepted means valid.
   */
  lemma CutBetweenCharacters(s: bytes, len: nat)
    requires len <= |s| && (len == |s| || !IsContinuation(s[len]))
    ensures IsValid(s, 0, len) <==> Valid(s[..len])
  {
    CutIsAcceptedIff(s, len);
    if Overruns(s, 0, len) {
      OverrunCrossesAContinuation(s, 0, len);
    }
  }

  /** A string cut in the middle of a character is accepted although the cut piece is not valid UTF-8. */
  lemma CutCharacterIsAccepted()
    ensures var s: bytes := [0xC3, 0xA9];
            IsValid(s, 0, 1) && !Valid(s[..1])
  {
    var s: bytes := [0xC3, 0xA9];
    assert VerifySequence(s, 0) == 2;
    CutIsAcceptedIff(s, 1);
  }
}
