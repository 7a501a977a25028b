/**
 What the router does to an IPv4 packet, in place in its buffer: the echo reply, the
 two error replies, and forwarding up to the decremented time to live.

 The buffer holds the Ethernet header in bytes 0 to 13, the IP header in bytes 14 to
 33 and the ICMP header in bytes 34 to 41.
 */
module Router {
  import opened CString
  import opened Checksum
  import opened IpHeader
  import opened RouteTable

  const MAX_LEN: nat := 1600
  const IP: nat := 14
  const ICMP: nat := 34
  const DATA: nat := 42

  const LENGTH: nat := 16
  const TTL: nat := 22
  const PROTOCOL: nat := 23
  const CHECK: nat := 24
  const SOURCE: nat := 26
  const DESTINATION: nat := 30
  const TYPE: nat := 34
  const CODE: nat := 35
  const ICMP_CHECK: nat := 36

  function IpHeaderOf(s: bytes): (h: bytes)
    requires DATA <= |s|
    ensures |h| == 20
  {
    s[IP..ICMP]
  }

  function IcmpHeaderOf(s: bytes): (h: bytes)
    requires DATA <= |s|
    ensures |h| == 8
  {
    s[ICMP..DATA]
  }

  // ----- the edits as functions -----

  /** The checksum of the bytes from `lo` up to `hi` is stored in the field `f` among them. */
  ghost function Stamp(s: bytes, lo: nat, hi: nat, f: nat): (r: bytes)
    requires lo <= f && f + 2 <= hi <= |s|
    ensures |r| == |s|
  {
    WithField(s, f, InternetChecksum(Zeroed(s, f)[lo..hi]))
  }

  ghost function StampIp(s: bytes): (r: bytes)
    requires DATA <= |s|
    ensures |r| == |s|
  {
    Stamp(s, IP, ICMP, CHECK)
  }

  ghost function StampIcmp(s: bytes): (r: bytes)
    requires DATA <= |s|
    ensures |r| == |s|
  {
    Stamp(s, ICMP, DATA, ICMP_CHECK)
  }

  function SwapHosts(s: bytes): (r: bytes)
    requires DATA <= |s|
    ensures |r| == |s|
  {
    Exchange(s, 0, 6, 6)
  }

  function SwapAddresses(s: bytes): (r: bytes)
    requires DATA <= |s|
    ensures |r| == |s|
  {
    Exchange(s, SOURCE, DESTINATION, 4)
  }

  ghost function EchoReply(s: bytes): (r: bytes)
    requires DATA <= |s|
    ensures |r| == |s|
  {
    StampIcmp(StampIp(SwapAddresses(SwapHosts(s[TYPE := 0][TTL := 64]))))
  }

  /** The checksum of the IP header is computed before the addresses change places. */
  ghost function Unreachable(s: bytes): (r: bytes)
    requires DATA <= |s|
    ensures |r| == |s|
  {
    var header := SwapHosts(s)[LENGTH := 0][LENGTH + 1 := 28][TTL := 64][PROTOCOL := 1];
    StampIcmp(SwapAddresses(StampIp(header))[TYPE := 3][CODE := 0])
  }

  ghost function TimeExceeded(s: bytes): (r: bytes)
    requires DATA <= |s|
    ensures |r| == |s|
  {
    var header := s[TTL := 64][PROTOCOL := 1][LENGTH := 0][LENGTH + 1 := 28];
    StampIcmp(StampIp(SwapAddresses(SwapHosts(header)))[TYPE := 11])
  }

  /** What one router on the way changes in a packet it forwards. */
  ghost function Hop(s: bytes): (r: bytes)
    requires DATA <= |s| && s[TTL] > 0
    ensures |r| == |s|
  {
    StampIp(s[TTL := s[TTL] - 1])
  }

  // ----- stamping -----

  lemma ZeroedPart(s: bytes, lo: nat, hi: nat, f: nat, c: nat)
    requires lo <= f && f + 2 <= hi <= |s| && c <= 0xFFFF
    ensures WithField(s, f, c)[lo..hi] == WithField(s[lo..hi], f - lo, c)
  {
  }

  lemma StampByte(s: bytes, lo: nat, hi: nat, f: nat)
    requires lo <= f && f + 2 <= hi <= |s|
    ensures forall i | 0 <= i < |s| && i != f && i != f + 1 :: Stamp(s, lo, hi, f)[i] == s[i]
  {
    hide InternetChecksum;
  }

  lemma StampStamps(s: bytes, lo: nat, hi: nat, f: nat)
    requires lo <= f && f + 2 <= hi <= |s|
    ensures Stamped(Stamp(s, lo, hi, f)[lo..hi], f - lo)
  {
    hide InternetChecksum, WithField;
    var c := InternetChecksum(Zeroed(s, f)[lo..hi]);
    ZeroedPart(s, lo, hi, f, 0);
    ZeroedPart(s, lo, hi, f, c);
    FieldAfterStore(s[lo..hi], f - lo, c);
  }

  /** What is stamped already stays as it is. */
  lemma StampingTwice(s: bytes, lo: nat, hi: nat, f: nat)
    requires lo <= f && f + 2 <= hi <= |s|
    ensures Stamped(s[lo..hi], f - lo) <==> Stamp(s, lo, hi, f) == s
  {
    hide InternetChecksum, WithField;
    ZeroedPart(s, lo, hi, f, 0);
    FieldsAgree(s, f);
    if Stamp(s, lo, hi, f) == s {
      StampStamps(s, lo, hi, f);
    }
  }

  /** Only the field that is overwritten matters not: two stampings that agree elsewhere agree. */
  lemma StampIgnoresTheField(s: bytes, lo: nat, hi: nat, f: nat, c: nat)
    requires lo <= f && f + 2 <= hi <= |s| && c <= 0xFFFF
    ensures Stamp(WithField(s, f, c), lo, hi, f) == Stamp(s, lo, hi, f)
  {
    assert Zeroed(WithField(s, f, c), f) == Zeroed(s, f);
  }

  /** A header with a time to live is not zero throughout, so once stamped it is valid. */
  lemma StampedHeaderIsValid(s: bytes)
    requires DATA <= |s| && s[TTL] > 0 && Stamped(IpHeaderOf(s), 10)
    ensures Valid(IpHeaderOf(s))
  {
    hide OcSum, InternetChecksum;
    assert Zeroed(IpHeaderOf(s), 10)[TTL - IP] == s[TTL];
    StampedIsValid(IpHeaderOf(s), 10);
  }

  // ----- exchanging -----

  lemma ExchangeBytes(s: bytes, a: nat, b: nat, n: nat)
    requires a + n <= b && b + n <= |s|
    ensures forall i | 0 <= i < |s| :: Exchange(s, a, b, n)[i] == Exchanged(s, a, b, n, i)
  {
    forall i | 0 <= i < |s|
      ensures Exchange(s, a, b, n)[i] == Exchanged(s, a, b, n, i)
    {
      ExchangeByte(s, a, b, n, i);
    }
  }

  lemma ExchangeStored(s: bytes, a: nat, b: nat, n: nat, f: nat, c: nat)
    requires f + 2 <= a && a + n <= b && b + n <= |s| && c <= 0xFFFF
    ensures Exchange(WithField(s, f, c), a, b, n) == WithField(Exchange(s, a, b, n), f, c)
  {
    hide Exchange;
    ExchangeBytes(s, a, b, n);
    ExchangeBytes(WithField(s, f, c), a, b, n);
  }

  lemma ExchangePart(s: bytes, a: nat, b: nat, n: nat, lo: nat, hi: nat)
    requires lo <= a && a + n <= b && b + n <= hi <= |s|
    ensures Exchange(s, a, b, n)[lo..hi] == Exchange(s[lo..hi], a - lo, b - lo, n)
  {
    hide Exchange;
    ExchangeBytes(s, a, b, n);
    ExchangeBytes(s[lo..hi], a - lo, b - lo, n);
    var whole, part := Exchange(s, a, b, n), Exchange(s[lo..hi], a - lo, b - lo, n);
    forall i | 0 <= i < hi - lo
      ensures whole[lo + i] == part[i]
    {
      assert part[i] == Exchanged(s[lo..hi], a - lo, b - lo, n, i);
      assert whole[lo + i] == Exchanged(s, a, b, n, lo + i);
    }
  }

  lemma ExchangeKeepsChecksum(s: bytes, a: nat, b: nat, n: nat)
    requires a + n <= b && b + n <= |s| && a % 2 == b % 2
    ensures InternetChecksum(Exchange(s, a, b, n)) == InternetChecksum(s)
  {
    hide Exchange, OcSum, Sum16, AllZero;
    ExchangeKeepsOcSum(s, a, b, n);
    ExchangeKeepsSum(s, a, b, n);
    ZeroSumIsAllZero(s, 0);
    ZeroSumIsAllZero(Exchange(s, a, b, n), 0);
  }

  /** It makes no difference whether the addresses change places before or after the checksum is computed. */
  lemma SwapCommutesWithStamp(s: bytes)
    requires DATA <= |s|
    ensures SwapAddresses(StampIp(s)) == StampIp(SwapAddresses(s))
  {
    hide Exchange, InternetChecksum, WithField;
    var z := Zeroed(s, CHECK);
    var c := InternetChecksum(z[IP..ICMP]);
    ExchangeStored(s, SOURCE, DESTINATION, 4, CHECK, 0);
    ExchangeStored(s, SOURCE, DESTINATION, 4, CHECK, c);
    ExchangePart(z, SOURCE, DESTINATION, 4, IP, ICMP);
    ExchangeKeepsChecksum(z[IP..ICMP], SOURCE - IP, DESTINATION - IP, 4);
    assert StampIp(s) == WithField(s, CHECK, c);
    assert StampIp(SwapAddresses(s)) == WithField(SwapAddresses(s), CHECK, c);
  }

  // ----- the replies -----

  /** Both checksums hold what the code computes, and the IP header passes the receiver's test. */
  ghost predicate WellStamped(r: bytes)
    requires DATA <= |r|
  {
    Stamped(IpHeaderOf(r), 10) && Valid(IpHeaderOf(r)) && Stamped(IcmpHeaderOf(r), 2)
  }

  /** The packet goes back: the hosts and the addresses have changed places. */
  predicate Mirrored(s: bytes, r: bytes)
    requires DATA <= |s| == |r|
  {
    && r[0..6] == s[6..12] && r[6..12] == s[0..6]
    && r[SOURCE..DESTINATION] == s[DESTINATION..ICMP] && r[DESTINATION..ICMP] == s[SOURCE..DESTINATION]
  }

  /** Apart from hosts, addresses and checksums only the bytes at the positions `edited` differ. */
  predicate KeptBut(s: bytes, r: bytes, edited: set<nat>)
    requires DATA <= |s| == |r|
  {
    forall i: nat | 12 <= i < |s| && i !in edited && !(CHECK <= i < ICMP) && !(ICMP_CHECK <= i < ICMP_CHECK + 2)
      :: r[i] == s[i]
  }

  lemma StampOutside(s: bytes, lo: nat, hi: nat, f: nat, a: nat, b: nat)
    requires lo <= f && f + 2 <= hi <= |s| && a <= b <= |s| && (b <= f || f + 2 <= a)
    ensures Stamp(s, lo, hi, f)[a..b] == s[a..b]
  {
    StampByte(s, lo, hi, f);
    hide Stamp;
  }

  lemma RepliesAreWellStamped(y: bytes, x: bytes)
    requires DATA <= |x| == |y| && y[TTL] > 0 && IpHeaderOf(x) == IpHeaderOf(StampIp(y))
    ensures WellStamped(StampIcmp(x))
  {
    var r := StampIcmp(x);
    StampStamps(y, IP, ICMP, CHECK);
    StampStamps(x, ICMP, DATA, ICMP_CHECK);
    StampOutside(x, ICMP, DATA, ICMP_CHECK, IP, ICMP);
    StampByte(y, IP, ICMP, CHECK);
    hide Stamp, Valid, Stamped;
    assert IpHeaderOf(r)[TTL - IP] == y[TTL] by {
      assert IpHeaderOf(x)[TTL - IP] == x[TTL] && IpHeaderOf(StampIp(y))[TTL - IP] == StampIp(y)[TTL];
    }
    StampedHeaderIsValid(r);
  }

  lemma SwapsMirror(s: bytes)
    requires DATA <= |s|
    ensures var r := SwapAddresses(SwapHosts(s));
            Mirrored(s, r) && forall i: nat | 12 <= i < |s| && !(SOURCE <= i < ICMP) :: r[i] == s[i]
  {
    hide Exchange;
    ExchangeBytes(s, 0, 6, 6);
    ExchangeBytes(SwapHosts(s), SOURCE, DESTINATION, 4);
  }

  lemma EchoReplyContents(s: bytes)
    requires DATA <= |s|
    ensures WellStamped(EchoReply(s)) && Mirrored(s, EchoReply(s))
    ensures EchoReply(s)[TYPE] == 0 && EchoReply(s)[TTL] == 64 && KeptBut(s, EchoReply(s), {TYPE, TTL})
  {
    hide Stamp, Exchange, WellStamped;
    var a := s[TYPE := 0][TTL := 64];
    SwapsMirror(a);
    var b := SwapAddresses(SwapHosts(a));
    StampByte(b, IP, ICMP, CHECK);
    StampByte(StampIp(b), ICMP, DATA, ICMP_CHECK);
    RepliesAreWellStamped(b, StampIp(b));
  }

  lemma TimeExceededContents(s: bytes)
    requires DATA <= |s|
    ensures WellStamped(TimeExceeded(s)) && Mirrored(s, TimeExceeded(s))
    ensures TimeExceeded(s)[TYPE] == 11 && TimeExceeded(s)[TTL] == 64 && TimeExceeded(s)[PROTOCOL] == 1
    ensures TimeExceeded(s)[LENGTH] as int * 256 + TimeExceeded(s)[LENGTH + 1] == DATA - IP
    ensures KeptBut(s, TimeExceeded(s), {TYPE, TTL, PROTOCOL, LENGTH, LENGTH + 1})
  {
    hide Stamp, Exchange, WellStamped;
    var a := s[TTL := 64][PROTOCOL := 1][LENGTH := 0][LENGTH + 1 := 28];
    SwapsMirror(a);
    var b := SwapAddresses(SwapHosts(a));
    StampByte(b, IP, ICMP, CHECK);
    var c := StampIp(b)[TYPE := 11];
    StampByte(c, ICMP, DATA, ICMP_CHECK);
    assert IpHeaderOf(c) == IpHeaderOf(StampIp(b));
    RepliesAreWellStamped(b, c);
  }

  /** Although the addresses change places after the IP checksum is computed, the reply is valid. */
  lemma UnreachableContents(s: bytes)
    requires DATA <= |s|
    ensures WellStamped(Unreachable(s)) && Mirrored(s, Unreachable(s))
    ensures Unreachable(s)[TYPE] == 3 && Unreachable(s)[CODE] == 0
    ensures Unreachable(s)[TTL] == 64 && Unreachable(s)[PROTOCOL] == 1
    ensures Unreachable(s)[LENGTH] as int * 256 + Unreachable(s)[LENGTH + 1] == DATA - IP
    ensures KeptBut(s, Unreachable(s), {TYPE, CODE, TTL, PROTOCOL, LENGTH, LENGTH + 1})
  {
    hide Stamp, Exchange, WellStamped;
    var a := SwapHosts(s)[LENGTH := 0][LENGTH + 1 := 28][TTL := 64][PROTOCOL := 1];
    SwapsMirror(s);
    ExchangeBytes(s, 0, 6, 6);
    ExchangeBytes(a, SOURCE, DESTINATION, 4);
    SwapCommutesWithStamp(a);
    var b := SwapAddresses(a);
    StampByte(b, IP, ICMP, CHECK);
    var c := StampIp(b)[TYPE := 3][CODE := 0];
    StampByte(c, ICMP, DATA, ICMP_CHECK);
    assert IpHeaderOf(c) == IpHeaderOf(StampIp(b));
    RepliesAreWellStamped(b, c);
  }

  lemma ReduceFull(w: nat)
    ensures Reduce(w) == 0xFFFF <==> w > 0 && w % 65535 == 0
  {
  }

  /**
   The ICMP checksum is computed over the eight bytes of the header alone. Over the whole
   message up to `n`, as RFC 792 has it, it is right exactly when the data sum to zero.
   */
  lemma IcmpChecksumCoversTheHeaderOnly(r: bytes, n: nat)
    requires DATA <= n <= |r| && Stamped(IcmpHeaderOf(r), 2)
    ensures Valid(r[ICMP..n])
       <==> OcSum(r[DATA..n]) == 0xFFFF || (AllZero(r[DATA..n]) && !AllZero(Zeroed(IcmpHeaderOf(r), 2)))
  {
    var h, d := IcmpHeaderOf(r), r[DATA..n];
    assert r[ICMP..n] == h + d;
    hide OcSum, AllZero, InternetChecksum;
    StampedIsValid(h, 2);
    if AllZero(Zeroed(h, 2)) {
      StampedZeros(h, 2);
      AfterZeros(h, d);
    } else {
      AfterAValidHeader(h, d);
    }
  }

  /**
   For the echo request `s` that arrives: the reply's checksum is right over the message
   up to `n` exactly when the data that came with the request sum to zero.
   */
  lemma EchoReplyIsRightIff(s: bytes, n: nat)
    requires DATA <= n <= |s|
    ensures Valid(EchoReply(s)[ICMP..n])
       <==> OcSum(s[DATA..n]) == 0xFFFF
            || (AllZero(s[DATA..n]) && !(s[CODE] == 0 && AllZero(s[ICMP_CHECK + 2..DATA])))
  {
    var r := EchoReply(s);
    EchoReplyContents(s);
    assert r[TYPE] == 0 && r[CODE] == s[CODE];
    DataKept(s, r, n);
    hide EchoReply, OcSum, KeptBut, Mirrored, Valid;
    IcmpChecksumCoversTheHeaderOnly(r, n);
    ZeroedIcmpHeader(r);
  }

  lemma DataKept(s: bytes, r: bytes, n: nat)
    requires DATA <= n <= |s| && |r| == |s| && KeptBut(s, r, {TYPE, TTL})
    ensures r[DATA..n] == s[DATA..n] && r[ICMP_CHECK + 2..DATA] == s[ICMP_CHECK + 2..DATA] && r[CODE] == s[CODE]
  {
  }

  lemma ZeroedIcmpHeader(r: bytes)
    requires DATA <= |r|
    ensures AllZero(Zeroed(IcmpHeaderOf(r), 2)) <==> r[TYPE] == 0 && r[CODE] == 0 && AllZero(r[ICMP_CHECK + 2..DATA])
  {
    var h, z := IcmpHeaderOf(r), Zeroed(IcmpHeaderOf(r), 2);
    assert z[0] == r[TYPE] && z[1] == r[CODE] && z[2] == 0 && z[3] == 0;
    assert z[4..] == r[ICMP_CHECK + 2..DATA];
    assert forall i | 4 <= i < 8 :: z[i] == z[4..][i - 4];
  }

  /** A request whose data are one word that is neither zero nor all ones: the reply's checksum is wrong. */
  lemma EchoReplyWithWrongChecksum(s: bytes)
    requires |s| == DATA + 2 && s[DATA] == 0 && s[DATA + 1] == 1
    ensures !Valid(EchoReply(s)[ICMP..DATA + 2])
  {
    hide EchoReply, Valid;
    assert s[DATA..DATA + 2] == [0, 1] && [0 as byte, 1 as byte][2..] == [];
    EchoReplyIsRightIff(s, DATA + 2);
  }

  lemma SumsAdd(h: bytes, d: bytes)
    requires |h| % 2 == 0
    ensures OcSum(h + d) == Reduce(Sum16(h, 0) + Sum16(d, 0))
    ensures OcSum(h) == Reduce(Sum16(h, 0)) && OcSum(d) == Reduce(Sum16(d, 0))
  {
    hide OcSum, Sum16, Reduce;
    Sum16Concat(h, d, 0);
    Sum16Parity(d, |h|, 0);
    OcSumIsReducedSum(h);
    OcSumIsReducedSum(d);
    OcSumIsReducedSum(h + d);
  }

  lemma AfterAValidHeader(h: bytes, d: bytes)
    requires |h| % 2 == 0 && Valid(h)
    ensures Valid(h + d) <==> OcSum(d) == 0xFFFF || AllZero(d)
  {
    hide OcSum, Sum16, AllZero, Reduce;
    SumsAdd(h, d);
    ReduceFull(Sum16(h, 0));
    ReduceFull(Sum16(d, 0));
    ReduceFull(Sum16(h, 0) + Sum16(d, 0));
    ZeroSumIsAllZero(d, 0);
  }

  lemma AfterZeros(h: bytes, d: bytes)
    requires |h| % 2 == 0 && AllZero(h)
    ensures Valid(h + d) <==> OcSum(d) == 0xFFFF
  {
    hide OcSum, Sum16, AllZero, Reduce;
    SumsAdd(h, d);
    ZeroSumIsAllZero(h, 0);
  }

  lemma StampedZeros(h: bytes, f: nat)
    requires f + 2 <= |h| && Stamped(h, f) && AllZero(Zeroed(h, f))
    ensures AllZero(h)
  {
    FieldsAgree(h, f);
  }

  // ----- forwarding -----

  lemma HopContents(s: bytes)
    requires DATA <= |s| && s[TTL] > 1
    ensures Stamped(IpHeaderOf(Hop(s)), 10) && Valid(IpHeaderOf(Hop(s)))
    ensures Hop(s)[TTL] == s[TTL] - 1
    ensures forall i: nat | i < |s| && i != TTL && !(CHECK <= i < CHECK + 2) :: Hop(s)[i] == s[i]
  {
    hide Stamp, Stamped, Valid;
    var a := s[TTL := s[TTL] - 1];
    StampStamps(a, IP, ICMP, CHECK);
    StampByte(a, IP, ICMP, CHECK);
    StampedHeaderIsValid(Hop(s));
  }

  /** Reduced sums, 256 apart. */
  lemma ReduceLess(w: nat)
    requires w > 256
    ensures Reduce(w - 256) == if Reduce(w) > 256 then Reduce(w) - 256 else Reduce(w) - 256 + 0xFFFF
  {
    var q := (w - 1) / 65535;
    assert w - 1 == 65535 * q + (Reduce(w) - 1);
    if Reduce(w) > 256 {
      assert w - 257 == 65535 * q + (Reduce(w) - 257);
    } else {
      assert w - 257 == 65535 * (q - 1) + (Reduce(w) - 257 + 65535);
    }
  }

  lemma TtlCounts(z: bytes)
    requires |z| == 20 && z[8] > 0
    ensures Sum16(z[8 := z[8] - 1], 0) == Sum16(z, 0) - 256
  {
    hide Sum16;
    var c := Field(z, 8);
    FieldsAgree(z, 8);
    FieldCounts(z, 8, c);
    FieldCounts(z, 8, c - 256);
    assert WithField(z, 8, c - 256) == z[8 := z[8] - 1];
  }

  /** The recomputed checksum is the received one plus 256, in one's complement, as RFC 1141 has it. */
  lemma HopAddsToTheChecksum(s: bytes)
    requires DATA <= |s| && s[TTL] > 1 && Stamped(IpHeaderOf(s), 10)
    ensures Field(IpHeaderOf(Hop(s)), 10)
         == (Field(IpHeaderOf(s), 10) + 0x100) % 0xFFFF
  {
    hide OcSum, Sum16, AllZero, Reduce, Stamp;
    var z := Zeroed(IpHeaderOf(s), 10);
    var z' := z[8 := z[8] - 1];
    assert z[8] == s[TTL];
    TtlCounts(z);
    HopContents(s);
    assert Zeroed(IpHeaderOf(Hop(s)), 10) == z';
    OcSumIsReducedSum(z);
    OcSumIsReducedSum(z');
    ZeroSumIsAllZero(z, 0);
    ZeroSumIsAllZero(z', 0);
    assert !AllZero(z) && !AllZero(z') by { NotAllZero(z, 8); NotAllZero(z', 8); }
    assert Sum16(z, 0) > 256;
    ReduceLess(Sum16(z, 0));
  }

  lemma NotAllZero(z: bytes, i: nat)
    requires i < |z| && z[i] > 0
    ensures !AllZero(z)
  {
  }

  /** A packet after `k` routers. */
  ghost function Hops(s: bytes, k: nat): (r: bytes)
    requires DATA <= |s| && k <= s[TTL]
    ensures |r| == |s| && r[TTL] == s[TTL] - k
  {
    if k == 0 then s else
      var before := Hops(s, k - 1);
      StampByte(before[TTL := before[TTL] - 1], IP, ICMP, CHECK);
      Hop(before)
  }

  /** Many hops are one: only the time to live of the end counts. */
  lemma {:induction false} HopsCollapse(s: bytes, k: nat)
    requires DATA <= |s| && 0 < k <= s[TTL]
    ensures Hops(s, k) == StampIp(s[TTL := s[TTL] - k])
  {
    if k > 1 {
      HopsCollapse(s, k - 1);
      var a := s[TTL := s[TTL] - (k - 1)];
      var c := InternetChecksum(Zeroed(a, CHECK)[IP..ICMP]);
      var b := s[TTL := s[TTL] - k];
      assert Hops(s, k - 1) == WithField(a, CHECK, c);
      assert WithField(a, CHECK, c)[TTL := s[TTL] - k] == WithField(b, CHECK, c);
      StampIgnoresTheField(b, IP, ICMP, CHECK, c);
    }
  }

  /** A stamped packet passes the test of every router while its time to live lasts, and is otherwise unchanged. */
  lemma EveryRouterAccepts(s: bytes, k: nat)
    requires DATA <= |s| && k < s[TTL] && Stamped(IpHeaderOf(s), 10)
    ensures Stamped(IpHeaderOf(Hops(s, k)), 10) && Valid(IpHeaderOf(Hops(s, k)))
    ensures forall i: nat | i < |s| && i != TTL && !(CHECK <= i < CHECK + 2) :: Hops(s, k)[i] == s[i]
  {
    if k > 0 {
      HopsCollapse(s, k);
      var a := s[TTL := s[TTL] - k];
      StampStamps(a, IP, ICMP, CHECK);
      StampByte(a, IP, ICMP, CHECK);
    }
    hide Stamp, Stamped, Valid;
    StampedHeaderIsValid(Hops(s, k));
  }

  // ----- in place -----

  method Store(m: array<byte>, i: nat, b: byte)
    requires i < m.Length
    modifies m
    ensures m[..] == old(m[..])[i := b]
  {
    m[i] := b;
  }

  /** `memcpy` from a separate buffer. */
  method Copy(m: array<byte>, at: nat, source: bytes)
    requires at + |source| <= m.Length
    modifies m
    ensures m[..] == Replaced(old(m[..]), at, source)
  {
    forall i | 0 <= i < |source| {
      m[at + i] := source[i];
    }
  }

  /** Two fields of `n` bytes change places, one of them by way of a copy. */
  method ExchangeInPlace(m: array<byte>, a: nat, b: nat, n: nat)
    requires a + n <= b && b + n <= m.Length
    modifies m
    ensures m[..] == Exchange(old(m[..]), a, b, n)
  {
    TwoCopies(m[..], a, b, n);
    hide Exchange;
    ghost var s := m[..];
    var aux, other := m[a..a + n], m[b..b + n];
    assert aux == s[a..a + n] && other == s[b..b + n];
    Copy(m, a, other);
    assert m[..] == Replaced(s, a, other);
    Copy(m, b, aux);
    assert m[..] == Replaced(Replaced(s, a, other), b, aux);
  }

  lemma TwoCopies(s: bytes, a: nat, b: nat, n: nat)
    requires a + n <= b && b + n <= |s|
    ensures Replaced(Replaced(s, a, s[b..b + n]), b, s[a..a + n]) == Exchange(s, a, b, n)
  {
    var t := Replaced(s, a, s[b..b + n]);
    assert t[..b] == s[..a] + s[b..b + n] + s[a + n..b];
    assert t[b + n..] == s[b + n..];
  }

  /** A checksum field is set to zero, computed over, and stored. `base` is the address of the buffer, modulo 4. */
  method StampInPlace(m: array<byte>, base: nat, lo: nat, hi: nat, f: nat)
    requires base < 4 && lo <= f && f + 2 <= hi <= m.Length == MAX_LEN
    modifies m
    ensures m[..] == Stamp(old(m[..]), lo, hi, f)
  {
    hide InternetChecksum, Computed;
    Store(m, f, 0);
    Store(m, f + 1, 0);
    assert m[..] == Zeroed(old(m[..]), f);
    var checksum := IpChecksum(m[lo..hi], (base + lo) % 4);
    Store(m, f, checksum / 256);
    Store(m, f + 1, checksum % 256);
  }

  method EchoReplyInPlace(m: array<byte>, base: nat)
    requires base < 4 && m.Length == MAX_LEN
    modifies m
    ensures m[..] == EchoReply(old(m[..]))
  {
    hide Stamp, Exchange;
    Store(m, TYPE, 0);
    Store(m, TTL, 64);
    ExchangeInPlace(m, 0, 6, 6);
    ExchangeInPlace(m, SOURCE, DESTINATION, 4);
    StampInPlace(m, base, IP, ICMP, CHECK);
    StampInPlace(m, base, ICMP, DATA, ICMP_CHECK);
  }

  method UnreachableInPlace(m: array<byte>, base: nat)
    requires base < 4 && m.Length == MAX_LEN
    modifies m
    ensures m[..] == Unreachable(old(m[..]))
  {
    hide Stamp, Exchange;
    ExchangeInPlace(m, 0, 6, 6);
    Store(m, LENGTH, 0);
    Store(m, LENGTH + 1, 28);
    Store(m, TTL, 64);
    Store(m, PROTOCOL, 1);
    StampInPlace(m, base, IP, ICMP, CHECK);
    ExchangeInPlace(m, SOURCE, DESTINATION, 4);
    Store(m, TYPE, 3);
    Store(m, CODE, 0);
    StampInPlace(m, base, ICMP, DATA, ICMP_CHECK);
  }

  method TimeExceededInPlace(m: array<byte>, base: nat)
    requires base < 4 && m.Length == MAX_LEN
    modifies m
    ensures m[..] == TimeExceeded(old(m[..]))
  {
    hide Stamp, Exchange;
    Store(m, TTL, 64);
    Store(m, PROTOCOL, 1);
    Store(m, LENGTH, 0);
    Store(m, LENGTH + 1, 28);
    ExchangeInPlace(m, 0, 6, 6);
    ExchangeInPlace(m, SOURCE, DESTINATION, 4);
    StampInPlace(m, base, IP, ICMP, CHECK);
    Store(m, TYPE, 11);
    StampInPlace(m, base, ICMP, DATA, ICMP_CHECK);
  }

  /** The test of the received checksum, and what a packet that passes it becomes. */
  method ForwardInPlace(m: array<byte>, base: nat) returns (passed: bool)
    requires base < 4 && m.Length == MAX_LEN && m[TTL] > 1
    modifies m
    ensures passed <==> Stamped(IpHeaderOf(old(m[..])), 10)
    ensures m[..] == if passed then Hop(old(m[..])) else StampIp(old(m[..]))
  {
    ghost var s := m[..];
    StampingTwice(s, IP, ICMP, CHECK);
    StampByte(s, IP, ICMP, CHECK);
    FieldsAgree(s, CHECK);
    StampStores(s, IP, ICMP, CHECK);
    hide Stamp, Stamped;
    var high, low := m[CHECK], m[CHECK + 1];
    StampInPlace(m, base, IP, ICMP, CHECK);
    passed := m[CHECK] == high && m[CHECK + 1] == low;
    assert passed <==> m[..] == s;
    if passed {
      Store(m, TTL, m[TTL] - 1);
      StampInPlace(m, base, IP, ICMP, CHECK);
    }
  }

  /** A stamping that leaves the two bytes of the field alone leaves everything alone. */
  lemma StampStores(s: bytes, lo: nat, hi: nat, f: nat)
    requires lo <= f && f + 2 <= hi <= |s|
    ensures var r := Stamp(s, lo, hi, f);
            r == s <==> r[f] == s[f] && r[f + 1] == s[f + 1]
  {
    StampByte(s, lo, hi, f);
    hide Stamp;
    var r := Stamp(s, lo, hi, f);
    if r[f] == s[f] && r[f + 1] == s[f + 1] {
      assert forall i | 0 <= i < |s| :: r[i] == s[i];
    }
  }

  // ----- one received packet -----

  datatype Action = NotIp | EchoReplied | NoRoute | Expired | Forwarded(route: nat) | BadChecksum

  /** What becomes of a packet: what is done, the contents of the buffer, and the length sent. */
  datatype Outcome = Outcome(action: Action, payload: bytes, len: nat)

  predicate IsIp(s: bytes)
    requires DATA <= |s|
  {
    s[12] == 0x08 && s[13] == 0x00
  }

  predicate IsEchoRequestTo(s: bytes, own: bytes)
    requires DATA <= |s|
  {
    s[PROTOCOL] == 1 && s[TYPE] == 8 && s[DESTINATION..ICMP] == own
  }

  /** The destination as a number, first byte most significant. */
  function Destination(s: bytes): (d: Address)
    requires DATA <= |s|
  {
    s[DESTINATION] as int * 0x100_0000 + s[DESTINATION + 1] as int * 0x1_0000
      + s[DESTINATION + 2] as int * 0x100 + s[DESTINATION + 3]
  }

  ghost function Handled(s: bytes, len: nat, own: bytes, rtable: seq<Route>): Outcome
    requires DATA <= |s|
  {
    if !IsIp(s) then
      Outcome(NotIp, s, len)
    else if IsEchoRequestTo(s, own) then
      Outcome(EchoReplied, EchoReply(s), len)
    else if BestRoute(rtable, Destination(s)) == -1 then
      Outcome(NoRoute, Unreachable(s), DATA)
    else if s[TTL] <= 1 then
      Outcome(Expired, TimeExceeded(s), DATA)
    else if Stamped(IpHeaderOf(s), 10) then
      Outcome(Forwarded(BestRoute(rtable, Destination(s))), Hop(s), len)
    else
      Outcome(BadChecksum, StampIp(s), len)
  }

  /** One round of the loop in `main`, up to the choice of the next hop. */
  method Handle(m: array<byte>, len: nat, base: nat, own: bytes, rtable: seq<Route>) returns (action: Action, len': nat)
    requires base < 4 && m.Length == MAX_LEN
    modifies m
    ensures Outcome(action, m[..], len') == Handled(old(m[..]), len, own, rtable)
  {
    hide Stamp, Exchange, EchoReply, Unreachable, TimeExceeded, Hop, Stamped, BestRoute;
    len' := len;
    ghost var s := m[..];
    if !(m[12] == 0x08 && m[13] == 0x00) {
      return NotIp, len;
    }
    if m[PROTOCOL] == 1 {
      if m[TYPE] == 8 {
        if m[DESTINATION..ICMP] == own {
          assert s[DESTINATION..ICMP] == own;
          EchoReplyInPlace(m, base);
          return EchoReplied, len;
        }
      }
    }
    assert !IsEchoRequestTo(s, own) by { assert s[DESTINATION..ICMP] == m[DESTINATION..ICMP]; }
    var index := GetBestRoute(rtable, Destination(m[..]));
    if index == -1 {
      UnreachableInPlace(m, base);
      return NoRoute, DATA;
    }
    if m[TTL] <= 1 {
      TimeExceededInPlace(m, base);
      return Expired, DATA;
    }
    var passed := ForwardInPlace(m, base);
    if passed {
      var route := GetBestRoute(rtable, Destination(m[..]));
      HopContents(s);
      return Forwarded(route), len;
    }
    return BadChecksum, len;
  }

  predicate Sent(a: Action) {
    a.EchoReplied? || a.NoRoute? || a.Expired? || a.Forwarded?
  }

  /**
   Whatever arrives, a packet that is sent has a valid IP header that the next router
   accepts, with a time to live.
   */
  lemma SentHeadersAreValid(s: bytes, len: nat, own: bytes, rtable: seq<Route>)
    requires DATA <= |s|
    ensures var o := Handled(s, len, own, rtable);
            Sent(o.action) ==>
              |o.payload| == |s| && Valid(IpHeaderOf(o.payload))
              && Stamped(IpHeaderOf(o.payload), 10) && o.payload[TTL] > 0
  {
    hide Stamp, Exchange, EchoReply, Unreachable, TimeExceeded, Hop, Stamped, BestRoute, Valid;
    EchoReplyContents(s);
    UnreachableContents(s);
    TimeExceededContents(s);
    if s[TTL] > 1 {
      HopContents(s);
    }
  }

  /** On every table: a packet that leaves goes to an entry that matches it, and it is lost only when its test fails. */
  lemma ForwardedToAMatchingRoute(s: bytes, len: nat, own: bytes, rtable: seq<Route>)
    requires DATA <= |s| && IsIp(s) && !IsEchoRequestTo(s, own)
    ensures var o := Handled(s, len, own, rtable);
            && (o.action.Forwarded? ==>
                  o.action.route < |rtable| && Matches(rtable[o.action.route], Destination(o.payload)))
            && (o.action.Forwarded? || o.action.BadChecksum? <==> BestRoute(rtable, Destination(s)) != -1 && s[TTL] > 1)
            && (o.action.BadChecksum? ==> !Stamped(IpHeaderOf(s), 10))
  {
    hide Stamp, Exchange, EchoReply, Unreachable, TimeExceeded, Hop, Stamped, BestRoute, Matches;
    if s[TTL] > 1 {
      HopContents(s);
    }
  }

  /** Of the packets that should go on, lost are those that are not valid or spell a zero checksum as all ones. */
  lemma LostIff(s: bytes, len: nat, own: bytes, rtable: seq<Route>)
    requires DATA <= |s| && IsIp(s) && !IsEchoRequestTo(s, own)
    requires BestRoute(rtable, Destination(s)) != -1 && s[TTL] > 1
    ensures var h := IpHeaderOf(s);
            Handled(s, len, own, rtable).action.BadChecksum? <==> !Valid(h) || Field(h, 10) == 0xFFFF
  {
    hide EchoReply, Unreachable, TimeExceeded, Hop, Stamped, BestRoute, Valid, OcSum;
    StampedIff(IpHeaderOf(s), 10);
    assert IpHeaderOf(s)[TTL - IP] == s[TTL];
  }

  /** A packet with a valid header that the router loses. */
  lemma ValidPacketIsLost(s: bytes, len: nat, own: bytes, rtable: seq<Route>)
    requires DATA <= |s| && IsIp(s) && !IsEchoRequestTo(s, own) && BestRoute(rtable, Destination(s)) != -1
    requires IpHeaderOf(s) == REFUSED
    ensures Valid(IpHeaderOf(s)) && Handled(s, len, own, rtable).action.BadChecksum?
  {
    hide Handled, BestRoute, Valid;
    ValidButRefused();
    assert IpHeaderOf(s)[TTL - IP] == s[TTL] && REFUSED[TTL - IP] == 64;
    assert Field(REFUSED, 10) == 0xFFFF;
    LostIff(s, len, own, rtable);
  }

  /** On a table as the search needs it: unreachable exactly where no entry matches, and onward by the longest match. */
  lemma RoutedByLongestPrefix(s: bytes, len: nat, own: bytes, rtable: seq<Route>)
    requires DATA <= |s| && IsIp(s) && !IsEchoRequestTo(s, own)
    requires Sorted(rtable) && AllProper(rtable) && NoDuplicates(rtable) && OverlapsShareAPrefix(rtable)
    ensures var o := Handled(s, len, own, rtable);
            && (o.action.NoRoute? <==> forall k | 0 <= k < |rtable| :: !Matches(rtable[k], Destination(s)))
            && (o.action.Forwarded? ==> LongestMatch(rtable, Destination(s), o.action.route))
  {
    hide Stamp, Exchange, EchoReply, Unreachable, TimeExceeded, Hop, Stamped, BestRoute, Matches;
    hide Sorted, AllProper, NoDuplicates, OverlapsShareAPrefix;
    LongestPrefixMatch(rtable, Destination(s));
  }

  // ----- what is done with a packet, byte by byte -----

  /** The destination: the number that bytes 30 to 33 spell in network order. */
  function Target(s: bytes): (d: Address)
    requires 42 <= |s|
  {
    ((s[30] as int * 256 + s[31]) * 256 + s[32]) * 256 + s[33]
  }

  predicate IsFor(e: Route, d: Address) {
    And(d, e.mask) == e.prefix
  }

  /** The entry has the longest mask among those that the destination is for. */
  ghost predicate Best(rtable: seq<Route>, d: Address, k: int) {
    && 0 <= k < |rtable| && IsFor(rtable[k], d)
    && forall j | 0 <= j < |rtable| && IsFor(rtable[j], d) :: rtable[j].mask <= rtable[k].mask
  }

  /** Apart from the bytes at the positions in `changed` nothing is different. */
  predicate SameBut(s: bytes, r: bytes, changed: set<nat>) {
    |r| == |s| && forall i: nat | i < |s| && i !in changed :: r[i] == s[i]
  }

  /** The bytes of `n` positions at `a` and at `b` have changed places. */
  predicate Swapped(s: bytes, r: bytes, a: nat, b: nat, n: nat) {
    && a + n <= |s| && b + n <= |s| && |r| == |s|
    && r[a..a + n] == s[b..b + n] && r[b..b + n] == s[a..a + n]
  }

  /** The sum over the IP header is all ones. */
  predicate GoodHeader(r: bytes) {
    34 <= |r| && OcSum(r[14..34]) == 0xFFFF
  }

  /** A reply: back to the sender, with a fresh time to live, a good header, and an ICMP checksum over eight bytes. */
  ghost predicate Reply(s: bytes, r: bytes, kind: byte) {
    && 42 <= |s| && Swapped(s, r, 0, 6, 6) && Swapped(s, r, 26, 30, 4) && GoodHeader(r)
    && r[22] == 64 && r[34] == kind
    && (!AllZero(r[34..36] + [0, 0] + r[38..42]) ==> OcSum(r[34..42]) == 0xFFFF)
  }

  const HOSTS: set<nat> := {0, 1, 2, 3, 4, 5, 6, 7, 8, 9, 10, 11}
  const ADDRESSES: set<nat> := {26, 27, 28, 29, 30, 31, 32, 33}
  const REPLIED: set<nat> := HOSTS + ADDRESSES + {22, 24, 25, 34, 36, 37}

  /** In an error message the protocol is ICMP and the length 28 bytes. */
  ghost predicate ErrorReply(s: bytes, r: bytes, kind: byte) {
    Reply(s, r, kind) && r[23] == 1 && r[16] == 0 && r[17] == 28
  }

  /**
   What becomes of a packet: what is sent, how long it is, and to which entry of the table.
   */
  ghost predicate Served(s: bytes, len: nat, own: bytes, rtable: seq<Route>, o: Outcome)
    requires 42 <= |s|
  {
    var d, r := Target(s), o.payload;
    if !(s[12] == 0x08 && s[13] == 0x00) then
      o.action == NotIp && r == s
    else if s[23] == 1 && s[34] == 8 && s[30..34] == own then
      o.action == EchoReplied && o.len == len && Reply(s, r, 0) && SameBut(s, r, REPLIED)
    else if forall k | 0 <= k < |rtable| :: !IsFor(rtable[k], d) then
      o.action == NoRoute && o.len == 42 && ErrorReply(s, r, 3) && r[35] == 0
      && SameBut(s, r, REPLIED + {16, 17, 23, 35})
    else if s[22] <= 1 then
      o.action == Expired && o.len == 42 && ErrorReply(s, r, 11) && SameBut(s, r, REPLIED + {16, 17, 23})
    else if OcSum(s[14..34]) == 0xFFFF && !(s[24] == 0xFF && s[25] == 0xFF) then
      o.action.Forwarded? && o.len == len && Best(rtable, d, o.action.route)
      && GoodHeader(r) && r[22] == s[22] - 1 && SameBut(s, r, {22, 24, 25})
    else
      o.action == BadChecksum && SameBut(s, r, {24, 25})
  }

  lemma MirroredSwaps(s: bytes, r: bytes)
    requires DATA <= |s| == |r| && Mirrored(s, r)
    ensures Swapped(s, r, 0, 6, 6) && Swapped(s, r, 26, 30, 4)
  {
  }

  lemma IcmpHeaderIsRight(r: bytes)
    requires DATA <= |r| && Stamped(IcmpHeaderOf(r), 2)
    ensures !AllZero(r[34..36] + [0, 0] + r[38..42]) ==> OcSum(r[34..42]) == 0xFFFF
  {
    var h := IcmpHeaderOf(r);
    assert Zeroed(h, 2) == r[34..36] + [0, 0] + r[38..42];
    hide OcSum, AllZero, InternetChecksum, Stamped;
    StampedIsValid(h, 2);
  }

  lemma WellStampedReply(s: bytes, r: bytes, kind: byte)
    requires DATA <= |s| == |r| && WellStamped(r) && Mirrored(s, r) && r[TTL] == 64 && r[TYPE] == kind
    ensures Reply(s, r, kind)
  {
    MirroredSwaps(s, r);
    hide Stamped, OcSum, AllZero, Mirrored, Swapped;
    IcmpHeaderIsRight(r);
  }

  lemma RepliedPositions(i: nat)
    ensures i in REPLIED <==> i < 12 || i == 22 || 24 <= i <= 34 || i == 36 || i == 37
  {
  }

  lemma KeptIsSame(s: bytes, r: bytes, edited: set<nat>, changed: set<nat>)
    requires DATA <= |s| == |r| && KeptBut(s, r, edited)
    requires TYPE in edited && TTL in edited && forall i | i in edited :: i == TYPE || i == TTL || i in changed
    ensures SameBut(s, r, REPLIED + changed)
  {
    hide REPLIED;
    forall i: nat | i < |s| && i !in REPLIED + changed
      ensures r[i] == s[i]
    {
      RepliedPositions(i);
    }
  }

  lemma EchoReplyServes(s: bytes)
    requires DATA <= |s|
    ensures Reply(s, EchoReply(s), 0) && SameBut(s, EchoReply(s), REPLIED)
  {
    EchoReplyContents(s);
    assert REPLIED + {} == REPLIED;
    hide WellStamped, Mirrored, EchoReply, Reply, KeptBut, SameBut, REPLIED;
    WellStampedReply(s, EchoReply(s), 0);
    KeptIsSame(s, EchoReply(s), {TYPE, TTL}, {});
  }

  lemma UnreachableServes(s: bytes)
    requires DATA <= |s|
    ensures ErrorReply(s, Unreachable(s), 3) && Unreachable(s)[35] == 0
    ensures SameBut(s, Unreachable(s), REPLIED + {16, 17, 23, 35})
  {
    UnreachableContents(s);
    hide WellStamped, Mirrored, Unreachable, Reply, KeptBut, SameBut, REPLIED;
    WellStampedReply(s, Unreachable(s), 3);
    KeptIsSame(s, Unreachable(s), {TYPE, CODE, TTL, PROTOCOL, LENGTH, LENGTH + 1}, {16, 17, 23, 35});
  }

  lemma TimeExceededServes(s: bytes)
    requires DATA <= |s|
    ensures ErrorReply(s, TimeExceeded(s), 11) && SameBut(s, TimeExceeded(s), REPLIED + {16, 17, 23})
  {
    TimeExceededContents(s);
    hide WellStamped, Mirrored, TimeExceeded, Reply, KeptBut, SameBut, REPLIED;
    WellStampedReply(s, TimeExceeded(s), 11);
    KeptIsSame(s, TimeExceeded(s), {TYPE, TTL, PROTOCOL, LENGTH, LENGTH + 1}, {16, 17, 23});
  }

  lemma HopServes(s: bytes)
    requires DATA <= |s| && s[TTL] > 1
    ensures GoodHeader(Hop(s)) && Hop(s)[22] == s[22] - 1 && SameBut(s, Hop(s), {22, 24, 25})
  {
    HopContents(s);
    hide Hop, Stamped, OcSum;
  }

  lemma LostServes(s: bytes)
    requires DATA <= |s|
    ensures SameBut(s, StampIp(s), {24, 25})
  {
    StampByte(s, IP, ICMP, CHECK);
    hide Stamp;
  }

  /** The test of the checksum, and the two bytes of the field. */
  lemma AcceptedIff(s: bytes)
    requires DATA <= |s| && s[TTL] > 1
    ensures Stamped(IpHeaderOf(s), 10) <==> OcSum(s[14..34]) == 0xFFFF && !(s[24] == 0xFF && s[25] == 0xFF)
  {
    hide OcSum, Stamped;
    StampedIff(IpHeaderOf(s), 10);
    assert IpHeaderOf(s)[TTL - IP] == s[TTL] && IpHeaderOf(s)[10] == s[24] && IpHeaderOf(s)[11] == s[25];
  }

  lemma TargetIsDestination(s: bytes)
    requires DATA <= |s|
    ensures Destination(s) == Target(s)
  {
  }

  /** The table answers for a destination: it finds the longest match, or rightly none. */
  ghost predicate Answers(rtable: seq<Route>, d: Address) {
    if BestRoute(rtable, d) == -1 then forall k | 0 <= k < |rtable| :: !IsFor(rtable[k], d)
    else Best(rtable, d, BestRoute(rtable, d))
  }

  /**
   Every packet is served as its bytes and the table demand, wherever the table answers for
   its destination.
   */
  lemma EveryPacketIsServed(s: bytes, len: nat, own: bytes, rtable: seq<Route>)
    requires DATA <= |s| && Answers(rtable, Target(s))
    ensures Served(s, len, own, rtable, Handled(s, len, own, rtable))
  {
    hide Stamp, Exchange, EchoReply, Unreachable, TimeExceeded, Hop, Stamped, BestRoute, Reply, SameBut, Best, OcSum;
    hide ErrorReply, GoodHeader, IsFor;
    TargetIsDestination(s);
    EchoReplyServes(s);
    UnreachableServes(s);
    TimeExceededServes(s);
    LostServes(s);
    if s[TTL] > 1 {
      HopServes(s);
      AcceptedIff(s);
    }
    AnswerFound(rtable, Target(s));
  }

  lemma AnswerFound(rtable: seq<Route>, d: Address)
    requires Answers(rtable, d)
    ensures BestRoute(rtable, d) == -1 <==> forall k | 0 <= k < |rtable| :: !IsFor(rtable[k], d)
    ensures BestRoute(rtable, d) != -1 ==> Best(rtable, d, BestRoute(rtable, d))
  {
    hide BestRoute;
  }

  /** Tables as the search needs them answer for every destination. */
  lemma ProperTableAnswers(rtable: seq<Route>, d: Address)
    requires Sorted(rtable) && AllProper(rtable) && NoDuplicates(rtable) && OverlapsShareAPrefix(rtable)
    ensures Answers(rtable, d)
  {
    hide Sorted, AllProper, NoDuplicates, OverlapsShareAPrefix, BestRoute;
    LongestPrefixMatch(rtable, d);
  }
}
