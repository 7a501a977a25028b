/**
 The Internet checksum of RFC 1071 section 1, and `ip_checksum`, which adds 32-bit words
 from wherever the data starts and folds the carries at the end.

 A 16-bit result stands for the two bytes it occupies in memory, high byte first, which
 is what storing the value `htons` gives amounts to.
 */
module Checksum {
  import opened CString

  // ----- the definition -----

  /** One's complement addition of 16-bit numbers: the carry is added at the low end. */
  function OcAdd(a: nat, b: nat): (r: nat)
    requires a <= 0xFFFF && b <= 0xFFFF
    ensures r <= 0xFFFF
  {
    if a + b <= 0xFFFF then a + b else a + b - 0xFFFF
  }

  /** The one's complement sum of the 16-bit words of the data, a missing last byte being zero. */
  function OcSum(data: bytes): (r: nat)
    ensures r <= 0xFFFF
  {
    if data == [] then 0
    else if |data| == 1 then data[0] as int * 256
    else OcAdd(data[0] as int * 256 + data[1], OcSum(data[2..]))
  }

  ghost predicate AllZero(data: bytes) {
    forall i | 0 <= i < |data| :: data[i] == 0
  }

  /** What `ip_checksum` is to return: the complement of the sum; data of zeros only get zero. */
  ghost function InternetChecksum(data: bytes): (r: nat)
    ensures r <= 0xFFFF
  {
    if AllZero(data) then 0 else 0xFFFF - OcSum(data)
  }

  // ----- sums of weighted bytes -----

  /** The weight of a byte in a 16-bit word. */
  function Weight16(o: nat): nat {
    if o % 2 == 0 then 256 else 1
  }

  /** The plain sum of 16-bit words when the data start at byte `o` of a word. */
  function Sum16(data: bytes, o: nat): nat {
    if data == [] then 0 else data[0] as int * Weight16(o) + Sum16(data[1..], o + 1)
  }

  /** The weight of a byte in a 32-bit word. */
  function Weight32(o: nat): nat
    requires o < 4
  {
    if o == 0 then 0x100_0000 else if o == 1 then 0x1_0000 else if o == 2 then 0x100 else 1
  }

  /** The plain sum of 32-bit words when the data start at byte `o` of a word. */
  function Sum32(data: bytes, o: nat): nat
    requires o < 4
  {
    if data == [] then 0 else data[0] as int * Weight32(o) + Sum32(data[1..], if o == 3 then 0 else o + 1)
  }

  /** Equal up to a multiple of 65535. */
  predicate Same(a: int, b: int) {
    (a - b) % 65535 == 0
  }

  lemma SameTrans(a: int, b: int, c: int)
    requires Same(a, b) && Same(b, c)
    ensures Same(a, c)
  {
    assert a - c == 65535 * ((a - b) / 65535 + (b - c) / 65535);
  }

  lemma SameSym(a: int, b: int)
    requires Same(a, b)
    ensures Same(b, a)
  {
    assert a - b == 65535 * ((a - b) / 65535);
  }

  lemma SameAdd(a: int, b: int, c: int, d: int)
    requires Same(a, b) && Same(c, d)
    ensures Same(a + c, b + d)
  {
  }

  /** Positive 16-bit numbers that are the same modulo 65535 are equal. */
  lemma SameIsEqual(a: int, b: int)
    requires 1 <= a <= 0xFFFF && 1 <= b <= 0xFFFF && Same(a, b)
    ensures a == b
  {
  }

  /** The representative of a plain sum: zero for zero, otherwise 1 to 65535. */
  function Reduce(w: nat): (r: nat)
    ensures r <= 0xFFFF && (r == 0 <==> w == 0)
    ensures Same(r, w)
  {
    if w == 0 then 0 else (w - 1) % 65535 + 1
  }

  /** The one's complement sum is the plain sum, reduced. */
  lemma {:induction false} OcSumIsReducedSum(data: bytes)
    ensures OcSum(data) == Reduce(Sum16(data, 0))
    decreases |data|
  {
    if |data| == 1 {
      assert Sum16(data[1..], 1) == 0;
    } else if |data| > 1 {
      var rest := data[2..];
      OcSumIsReducedSum(rest);
      assert data[1..][1..] == rest;
      Sum16Parity(rest, 2, 0);
      var w := data[0] as int * 256 + data[1];
      assert Sum16(data, 0) == w + Sum16(rest, 0);
      ReduceAdd(w, Sum16(rest, 0));
    }
  }

  lemma ReduceAdd(w: nat, s: nat)
    requires w <= 0xFFFF
    ensures OcAdd(w, Reduce(s)) == Reduce(w + s)
  {
    var a, b := OcAdd(w, Reduce(s)), Reduce(w + s);
    assert Same(a, w + Reduce(s));
    SameAdd(w, w, Reduce(s), s);
    SameTrans(a, w + Reduce(s), w + s);
    SameTrans(a, w + s, b);
    if a != 0 && b != 0 {
      SameIsEqual(a, b);
    }
  }

  lemma {:induction false} Sum16Parity(data: bytes, o: nat, p: nat)
    requires o % 2 == p % 2
    ensures Sum16(data, o) == Sum16(data, p)
    decreases |data|
  {
    if data != [] {
      Sum16Parity(data[1..], o + 1, p + 1);
    }
  }

  lemma {:induction false} ZeroSumIsAllZero(data: bytes, o: nat)
    ensures Sum16(data, o) == 0 <==> AllZero(data)
    decreases |data|
  {
    if data != [] {
      ZeroSumIsAllZero(data[1..], o + 1);
      if AllZero(data[1..]) && data[0] == 0 {
        assert forall i | 0 < i < |data| :: data[i] == data[1..][i - 1];
      }
    }
  }

  /** Adding 32-bit words is adding 16-bit words, modulo 65535. */
  lemma {:induction false} Sum32IsSum16(data: bytes, o: nat)
    requires o < 4
    ensures Same(Sum32(data, o), Sum16(data, o))
    decreases |data|
  {
    if data != [] {
      var o' := if o == 3 then 0 else o + 1;
      var b: int := data[0];
      Sum32IsSum16(data[1..], o');
      Sum16Parity(data[1..], o', o + 1);
      ByteInAWord(b, o);
      hide Same, Weight16, Weight32;
      SameAdd(b * Weight32(o), b * Weight16(o), Sum32(data[1..], o'), Sum16(data[1..], o'));
    }
  }

  /** A byte weighs the same in words of either length, modulo 65535. */
  lemma ByteInAWord(b: int, o: nat)
    requires o < 4
    ensures Same(b * Weight32(o), b * Weight16(o))
  {
    if o == 0 {
      MultipleIsSame(b * 0x100_0000, b * 0x100, 0x100 * b);
    } else if o == 1 {
      MultipleIsSame(b * 0x1_0000, b, b);
    }
  }

  lemma MultipleIsSame(x: int, y: int, q: int)
    requires x - y == 65535 * q
    ensures Same(x, y)
  {
  }

  lemma ShiftedByte(b: int, o: nat)
    ensures Same(256 * (b * Weight16(o + 1)), b * Weight16(o))
  {
  }

  /** Starting one byte later multiplies by 256, modulo 65535. */
  lemma {:induction false} Sum16Shifted(data: bytes, o: nat)
    ensures Same(256 * Sum16(data, o + 1), Sum16(data, o))
    decreases |data|
  {
    if data != [] {
      Sum16Shifted(data[1..], o + 1);
      var b: int := data[0];
      ShiftedByte(b, o);
      hide Same, Weight16;
      assert 256 * Sum16(data, o + 1) == 256 * (b * Weight16(o + 1)) + 256 * Sum16(data[1..], o + 2);
      SameAdd(256 * (b * Weight16(o + 1)), b * Weight16(o), 256 * Sum16(data[1..], o + 2), Sum16(data[1..], o + 1));
    }
  }

  // ----- folding -----

  const TWO_16: nat := 0x1_0000
  const TWO_32: nat := 0x1_0000_0000
  const TWO_64: nat := 0x1_0000_0000_0000_0000

  type uint64 = x: int | 0 <= x < TWO_64

  /** The folding loop. */
  function FoldLoop(acc: nat): (r: nat)
    ensures r < TWO_16
    ensures Same(r, acc) && (r == 0 <==> acc == 0)
    decreases acc
  {
    if acc / TWO_16 == 0 then acc
    else
      var next := acc % TWO_16 + acc / TWO_16;
      assert Same(next, acc);
      SameTrans(FoldLoop(next), next, acc);
      FoldLoop(next)
  }

  function Fold(acc: nat): (r: nat)
    ensures r < TWO_16
    ensures Same(r, acc) && (r == 0 <==> acc == 0)
  {
    var first := acc % TWO_32 + acc / TWO_32;
    assert Same(first, acc);
    SameTrans(FoldLoop(first), first, acc);
    FoldLoop(first)
  }

  function SwapBytes(x: nat): (r: nat)
    requires x < TWO_16
    ensures r < TWO_16
  {
    x % 256 * 256 + x / 256
  }

  lemma SwapIsTimes256(x: nat)
    requires x < TWO_16
    ensures Same(SwapBytes(x), 256 * x) && (SwapBytes(x) == 0 <==> x == 0)
  {
    assert x == x / 256 * 256 + x % 256;
  }

  /** What the code returns, its accumulator being 64 bits wide. */
  function Computed(data: bytes, offset: nat): (r: nat)
    requires offset < 4
    ensures r < TWO_16
  {
    var acc := Fold((0xFFFF + Sum32(data, offset)) % TWO_64);
    0xFFFF - if offset % 2 == 1 then SwapBytes(acc) else acc
  }

  // ----- the code -----

  lemma OffsetAfter(o: nat, n: nat)
    requires o < 4 && n > 0
    ensures ((if o == 3 then 0 else o + 1) + (n - 1)) % 4 == (o + n) % 4
  {
  }

  lemma Sum32Head(data: bytes, o: nat)
    requires o < 4 && data != []
    ensures Sum32(data, o) == data[0] as int * Weight32(o) + Sum32(data[1..], if o == 3 then 0 else o + 1)
  {
  }

  lemma {:induction false} Sum32Concat(a: bytes, b: bytes, o: nat)
    requires o < 4
    ensures Sum32(a + b, o) == Sum32(a, o) + Sum32(b, (o + |a|) % 4)
    decreases |a|
  {
    if a == [] {
      assert a + b == b;
    } else {
      assert (a + b)[0] == a[0] && (a + b)[1..] == a[1..] + b;
      hide *;
      var next := if o == 3 then 0 else o + 1;
      OffsetAfter(o, |a|);
      Sum32Head(a, o);
      Sum32Head(a + b, o);
      Sum32Concat(a[1..], b, next);
    }
  }

  /**
   `memcpy` of a few bytes into a zeroed word at byte `o`, and `ntohl` of the word.
   */
  method ReadWord(data: bytes, o: nat) returns (word: nat)
    requires o + |data| <= 4
    ensures o < 4 ==> word == Sum32(data, o)
    ensures word < TWO_32
  {
    var b: seq<int> := [0, 0, 0, 0];
    b := b[..o] + data + b[o + |data|..];
    word := b[0] * 0x100_0000 + b[1] * 0x1_0000 + b[2] * 0x100 + b[3];
    if o < 4 {
      WordBytes(data, o);
    }
  }

  /** Where a word's byte `k` comes from when `data` starts at byte `o`. */
  function ByteAt(data: bytes, o: nat, k: nat): int {
    if o <= k < o + |data| then data[k - o] else 0
  }

  lemma {:induction false} WordValue(data: bytes, o: nat)
    requires o < 4 && o + |data| <= 4
    ensures Sum32(data, o)
         == ByteAt(data, o, 0) * 0x100_0000 + ByteAt(data, o, 1) * 0x1_0000
            + ByteAt(data, o, 2) * 0x100 + ByteAt(data, o, 3)
    decreases |data|
  {
    if data != [] && o < 3 {
      WordValue(data[1..], o + 1);
    } else if data != [] {
      assert data[1..] == [];
    }
  }

  lemma WordBytes(data: bytes, o: nat)
    requires o < 4 && o + |data| <= 4
    ensures var b: seq<int> := [0, 0, 0, 0][..o] + data + [0, 0, 0, 0][o + |data|..];
            Sum32(data, o) == b[0] * 0x100_0000 + b[1] * 0x1_0000 + b[2] * 0x100 + b[3]
    ensures Sum32(data, o) < TWO_32
  {
    WordValue(data, o);
    PaddedAt(data, o, 0);
    PaddedAt(data, o, 1);
    PaddedAt(data, o, 2);
    PaddedAt(data, o, 3);
    hide *;
  }

  lemma PaddedAt(data: bytes, o: nat, k: nat)
    requires o < 4 && o + |data| <= 4 && k < 4
    ensures var b: seq<int> := [0, 0, 0, 0][..o] + data + [0, 0, 0, 0][o + |data|..];
            |b| == 4 && b[k] == ByteAt(data, o, k) && 0 <= b[k] < 256
  {
    var zeros: seq<int> := [0, 0, 0, 0];
    assert zeros[k] == 0;
    if k < o {
      assert zeros[..o][k] == zeros[k];
    } else if k >= o + |data| {
      assert zeros[o + |data|..][k - o - |data|] == zeros[k];
    }
  }

  /** Addition to the accumulator, which drops a carry out of 64 bits. */
  function Accumulate(acc: uint64, word: nat): uint64 {
    (acc + word) % TWO_64
  }

  lemma AccumulateSum(acc: uint64, total: nat, word: nat)
    requires acc == total % TWO_64
    ensures Accumulate(acc, word) == (total + word) % TWO_64
  {
  }

  /** The accumulator after the first `p` bytes. */
  ghost predicate Summed(acc: uint64, data: bytes, p: nat, offset: nat)
    requires offset < 4 && p <= |data|
  {
    acc == (0xFFFF + Sum32(data[..p], offset)) % TWO_64
  }

  /** A word read at `p` goes to the accumulator. */
  method AddWord(data: bytes, offset: nat, acc: uint64, p: nat, count: nat) returns (acc': uint64)
    requires offset < 4 && p + count <= |data| && (offset + p) % 4 + count <= 4
    requires Summed(acc, data, p, offset)
    ensures Summed(acc', data, p + count, offset)
  {
    hide Sum32;
    var word := ReadWord(data[p..p + count], (offset + p) % 4);
    acc' := Accumulate(acc, word);
    assert data[..p + count] == data[..p] + data[p..p + count];
    Sum32Concat(data[..p], data[p..p + count], offset);
    AccumulateSum(acc, 0xFFFF + Sum32(data[..p], offset), word);
  }

  /** Whether a position behind the first partial word is the address of a whole word. */
  predicate Aligned(offset: nat, p: nat) {
    (offset + p) % 4 == 0
  }

  lemma WholeWords(length: nat)
    ensures length / 4 * 4 + length % 4 == length
  {
  }

  lemma AlignedNext(offset: nat, p: nat)
    requires Aligned(offset, p)
    ensures Aligned(offset, p + 4)
  {
  }

  /** A word at an aligned position, or the start of one at the end of the data. */
  method AddAligned(data: bytes, offset: nat, acc: uint64, p: nat, count: nat) returns (acc': uint64)
    requires offset < 4 && p + count <= |data| && count <= 4 && Aligned(offset, p)
    requires Summed(acc, data, p, offset)
    ensures Summed(acc', data, p + count, offset)
  {
    hide Summed;
    acc' := AddWord(data, offset, acc, p, count);
  }

  /** A partial word, whole words, and a partial word again. */
  method SumWords(data: bytes, offset: nat) returns (acc: uint64)
    requires offset < 4
    ensures Summed(acc, data, |data|, offset)
  {
    acc := 0xFFFF;
    var p: nat, length: nat := 0, |data|;
    assert Summed(acc, data, 0, offset);
    assert offset == 0 ==> Aligned(offset, p);
    hide Summed;
    if offset != 0 {
      var count := 4 - offset;
      if count > length {
        count := length;
      }
      acc := AddWord(data, offset, acc, p, count);
      p := p + count;
      length := length - count;
    }
    assert p < |data| ==> Aligned(offset, p);
    hide *;
    WholeWords(length);
    ghost var words := length / 4;
    var end := p + length / 4 * 4;
    while p != end
      invariant p <= end <= |data| && end - p == 4 * words
      invariant p < |data| ==> Aligned(offset, p)
      invariant Summed(acc, data, p, offset)
      decreases end - p
    {
      acc := AddAligned(data, offset, acc, p, 4);
      AlignedNext(offset, p);
      p := p + 4;
      words := words - 1;
    }
    length := length % 4;
    if length != 0 {
      acc := AddAligned(data, offset, acc, p, length);
    }
  }

  /** `ip_checksum` of data whose address is `offset` modulo 4. */
  method IpChecksum(data: bytes, offset: nat) returns (checksum: nat)
    requires offset < 4
    ensures checksum == Computed(data, offset)
    ensures |data| + offset <= 0x4_0000_0000 ==> checksum == InternetChecksum(data)
  {
    hide InternetChecksum, Fold, SwapBytes, Sum32, Summed;
    var acc := SumWords(data, offset);
    SummedAll(acc, data, |data|, offset);
    var folded := FoldAccumulator(acc);
    if offset % 2 == 1 {
      folded := SwapBytes(folded);
    }
    checksum := 0xFFFF - folded;
    if |data| + offset <= 0x4_0000_0000 {
      ComputedIsInternetChecksum(data, offset);
    }
  }

  lemma SummedAll(acc: uint64, data: bytes, p: nat, offset: nat)
    requires offset < 4 && p == |data| && Summed(acc, data, p, offset)
    ensures acc == (0xFFFF + Sum32(data, offset)) % TWO_64
  {
    assert data[..p] == data;
  }

  /** The deferred carries: one 32-bit fold, then 16-bit folds until nothing is left. */
  method FoldAccumulator(acc: uint64) returns (folded: nat)
    ensures folded == Fold(acc)
  {
    folded := acc % TWO_32 + acc / TWO_32;
    ghost var first := folded;
    while folded / TWO_16 != 0
      invariant FoldLoop(folded) == FoldLoop(first)
      decreases folded
    {
      folded := folded % TWO_16 + folded / TWO_16;
    }
  }

  // ----- the result -----

  /** `n` words of 32 bits never overflow an accumulator that started with 0xFFFF while `n` is at most 2^32. */
  lemma {:induction false} Sum32Bound(data: bytes, o: nat)
    requires o < 4
    ensures Sum32(data, o) <= (|data| + o + 3) / 4 * 0xFFFF_FFFF
    decreases |data|
  {
    var rest := if |data| <= 4 - o then |data| else 4 - o;
    var a, b := data[..rest], data[rest..];
    assert data == a + b;
    Sum32Concat(a, b, o);
    WordBytes(a, o);
    if b != [] {
      Sum32Bound(b, 0);
      assert (|data| + o + 3) / 4 == 1 + (|b| + 3) / 4;
    }
  }

  lemma NoCarryIsLost(data: bytes, offset: nat)
    requires offset < 4 && |data| + offset <= 0x4_0000_0000
    ensures 0xFFFF + Sum32(data, offset) < TWO_64
  {
    Sum32Bound(data, offset);
    assert (|data| + offset + 3) / 4 <= 0x1_0000_0000;
  }

  /** Without a lost carry, folding gives the 16-bit sum of the shifted data. */
  lemma FoldedSum(data: bytes, offset: nat)
    requires offset < 4
    ensures Same(Fold(0xFFFF + Sum32(data, offset)), Sum16(data, offset % 2))
  {
    var total := 0xFFFF + Sum32(data, offset);
    assert Same(total, Sum32(data, offset));
    hide Fold, Same, Sum16, Sum32;
    Sum32IsSum16(data, offset);
    Sum16Parity(data, offset, offset % 2);
    SameTrans(total, Sum32(data, offset), Sum16(data, offset % 2));
    SameTrans(Fold(total), total, Sum16(data, offset % 2));
  }

  /** Swapping the bytes takes the shift back. */
  lemma SwappedSum(data: bytes, x: nat)
    requires x < TWO_16 && Same(x, Sum16(data, 1))
    ensures Same(SwapBytes(x), Sum16(data, 0))
  {
    hide Same, Sum16, SwapBytes;
    SwapIsTimes256(x);
    Sum16Shifted(data, 0);
    TimesKeepsSame(x, Sum16(data, 1));
    SameTrans(SwapBytes(x), 256 * x, 256 * Sum16(data, 1));
    SameTrans(SwapBytes(x), 256 * Sum16(data, 1), Sum16(data, 0));
  }

  lemma TimesKeepsSame(a: int, b: int)
    requires Same(a, b)
    ensures Same(256 * a, 256 * b)
  {
    var q := (a - b) / 65535;
    assert a - b == 65535 * q;
    assert 256 * a - 256 * b == 65535 * (256 * q);
  }

  lemma FullIsZero()
    ensures Same(0, 0xFFFF)
  {
  }

  /** A positive 16-bit number that is the same as the plain sum is the complement of the checksum. */
  lemma ComplementOfSum(data: bytes, x: nat)
    requires 1 <= x <= 0xFFFF && Same(x, Sum16(data, 0))
    ensures 0xFFFF - x == InternetChecksum(data)
  {
    hide Same, OcSum, Sum16, Reduce, AllZero;
    OcSumIsReducedSum(data);
    ZeroSumIsAllZero(data, 0);
    SameSym(OcSum(data), Sum16(data, 0));
    SameTrans(x, Sum16(data, 0), OcSum(data));
    if AllZero(data) {
      FullIsZero();
      SameTrans(x, OcSum(data), 0xFFFF);
      SameIsEqual(x, 0xFFFF);
    } else {
      SameIsEqual(x, OcSum(data));
    }
  }

  /** For data of up to 2^34 bytes the code computes the Internet checksum, whatever the alignment. */
  lemma ComputedIsInternetChecksum(data: bytes, offset: nat)
    requires offset < 4 && |data| + offset <= 0x4_0000_0000
    ensures Computed(data, offset) == InternetChecksum(data)
  {
    hide Fold, SwapBytes, InternetChecksum, Same, Sum16, Sum32;
    NoCarryIsLost(data, offset);
    var acc := Fold(0xFFFF + Sum32(data, offset));
    FoldedSum(data, offset);
    if offset % 2 == 1 {
      SwapIsTimes256(acc);
      SwappedSum(data, acc);
      ComplementOfSum(data, SwapBytes(acc));
    } else {
      ComplementOfSum(data, acc);
    }
  }

  /** Storing the bytes at any alignment gives the same checksum. */
  lemma AlignmentDoesNotMatter(data: bytes, a: nat, b: nat)
    requires a < 4 && b < 4 && |data| + a <= 0x4_0000_0000 && |data| + b <= 0x4_0000_0000
    ensures Computed(data, a) == Computed(data, b)
  {
    ComputedIsInternetChecksum(data, a);
    ComputedIsInternetChecksum(data, b);
  }

  // ----- the bound is sharp -----

  /** `n` words of ones. */
  function Ones(n: nat): (r: bytes)
    ensures |r| == 4 * n
  {
    seq(4 * n, i => 255)
  }

  lemma {:induction false} SumOfOnes(n: nat)
    ensures Sum32(Ones(n), 0) == n * 0xFFFF_FFFF
    decreases n
  {
    if n > 0 {
      var word: bytes := [255, 255, 255, 255];
      assert Ones(n) == word + Ones(n - 1);
      Sum32Concat(word, Ones(n - 1), 0);
      assert word[1..] == [255, 255, 255];
      assert [255, 255, 255][1..] == [255, 255];
      assert [255, 255][1..] == [255];
      assert Sum32([255], 3) == 255;
      assert Sum32(word, 0) == 0xFFFF_FFFF;
      SumOfOnes(n - 1);
    }
  }

  lemma FoldsOfOnes()
    ensures Fold(0xFFFE) == 0xFFFE && Fold(TWO_64 + 0xFFFE) == 0xFFFF
  {
    assert (TWO_64 + 0xFFFE) % TWO_32 == 0xFFFE && (TWO_64 + 0xFFFE) / TWO_32 == TWO_32;
    assert FoldLoop(0xFFFF) == 0xFFFF;
    assert FoldLoop(0x1_FFFE) == FoldLoop(0xFFFF);
    assert FoldLoop(TWO_32 + 0xFFFE) == FoldLoop(0x1_FFFE);
  }

  /** Whatever data sum up to 2^64 - 1: one carry is lost, and the result is off by one. */
  lemma OffByOne(data: bytes)
    requires Sum32(data, 0) == TWO_64 - 1
    ensures Computed(data, 0) == 1 && InternetChecksum(data) == 0
  {
    hide InternetChecksum, Fold, Same, Sum16, Sum32;
    FoldsOfOnes();
    FoldedSum(data, 0);
    assert (0xFFFF + Sum32(data, 0)) % TWO_64 == 0xFFFE;
    assert 0xFFFF + Sum32(data, 0) == TWO_64 + 0xFFFE;
    ComplementOfSum(data, 0xFFFF);
  }

  /** One word more than 2^34 bytes, all ones: the result is wrong. */
  lemma LostCarry()
    ensures |Ones(0x1_0000_0001)| == 0x4_0000_0004
    ensures Computed(Ones(0x1_0000_0001), 0) != InternetChecksum(Ones(0x1_0000_0001))
  {
    hide Ones, Sum32, Computed, InternetChecksum;
    SumOfOnes(0x1_0000_0001);
    OffByOne(Ones(0x1_0000_0001));
  }
}
