/**
 The routing table: sorted once, in place, and then searched for the longest matching
 prefix. Addresses are 32-bit numbers whose first byte is the most significant one.
 */
module RouteTable {

  const WORD: int := 0x1_0000_0000

  type Address = x: int | 0 <= x < WORD

  datatype Route = Route(prefix: Address, nextHop: Address, mask: Address, interface: int)

  // ----- bitwise conjunction -----

  /** The bitwise conjunction of two unsigned numbers, as the operator `&` of C computes it. */
  function And(x: nat, y: nat): (r: nat)
    ensures r <= x && r <= y
  {
    if x == 0 || y == 0 then 0 else 2 * And(x / 2, y / 2) + (if x % 2 == 1 && y % 2 == 1 then 1 else 0)
  }

  function Pow2(n: nat): (r: nat)
    ensures r > 0
  {
    if n == 0 then 1 else 2 * Pow2(n - 1)
  }

  predicate Bit(x: nat, i: nat) {
    if i == 0 then x % 2 == 1 else Bit(x / 2, i - 1)
  }

  lemma {:induction false} AndIsBitwise(x: nat, y: nat, i: nat)
    ensures Bit(And(x, y), i) <==> Bit(x, i) && Bit(y, i)
  {
    if x == 0 || y == 0 {
      NoBits(i);
    } else if i > 0 {
      AndIsBitwise(x / 2, y / 2, i - 1);
    }
  }

  lemma {:induction false} NoBits(i: nat)
    ensures !Bit(0, i)
  {
    if i > 0 {
      NoBits(i - 1);
    }
  }

  // ----- masks -----

  predicate Matches(e: Route, dest: Address) {
    And(dest, e.mask) == e.prefix
  }

  /** The mask whose `n` low bits are zero and whose other bits are one. */
  function Mask(n: nat): (m: Address)
    requires n <= 32
  {
    Pow2Up(n, 32);
    WORD - Pow2(n)
  }

  ghost predicate Contiguous(mask: Address) {
    exists n: nat | n <= 32 :: mask == Mask(n)
  }

  /** A mask of ones followed by zeros, and a prefix that has no bit outside it. */
  ghost predicate Proper(e: Route) {
    Contiguous(e.mask) && And(e.prefix, e.mask) == e.prefix
  }

  /** `x` with its `n` low bits cleared. */
  function Cleared(x: nat, n: nat): nat {
    if n == 0 then x else 2 * Cleared(x / 2, n - 1)
  }

  lemma {:induction false} Pow2Up(m: nat, n: nat)
    requires m <= n
    ensures Pow2(m) <= Pow2(n) && (m < n ==> Pow2(m) < Pow2(n)) && (n == 32 ==> Pow2(n) == WORD)
  {
    if n == 32 {
      Pow2Values();
    }
    if m < n {
      Pow2Up(m, n - 1);
    }
  }

  lemma Pow2Values()
    ensures Pow2(8) == 0x100 && Pow2(16) == 0x1_0000 && Pow2(32) == WORD
  {
    assert Pow2(4) == 16;
    assert Pow2(8) == 0x100;
    assert Pow2(12) == 0x1000;
    assert Pow2(16) == 0x1_0000;
    assert Pow2(20) == 0x10_0000;
    assert Pow2(24) == 0x100_0000;
    assert Pow2(28) == 0x1000_0000;
  }

  /** Masking with ones from bit `n` up to bit `w` clears the bits below `n`. */
  lemma {:induction false} MaskingClears(x: nat, w: nat, n: nat)
    requires n <= w && x < Pow2(w)
    ensures Pow2(n) <= Pow2(w) && And(x, Pow2(w) - Pow2(n)) == Cleared(x, n)
  {
    Pow2Up(n, w);
    if w > 0 {
      AndHalves(x, Pow2(w) - Pow2(n));
      MaskingClears(x / 2, w - 1, if n > 0 then n - 1 else 0);
    }
    hide And;
  }

  lemma AndHalves(x: nat, mask: nat)
    ensures And(x, mask) == 2 * And(x / 2, mask / 2) + (if x % 2 == 1 && mask % 2 == 1 then 1 else 0)
  {
  }

  lemma MaskIs(x: Address, n: nat)
    requires n <= 32
    ensures And(x, Mask(n)) == Cleared(x, n)
  {
    Pow2Up(n, 32);
    MaskingClears(x, 32, n);
  }

  lemma MaskingIsMonotone(mask: Address, x: Address, y: Address)
    requires Contiguous(mask) && x <= y
    ensures And(x, mask) <= And(y, mask)
  {
    var n: nat :| n <= 32 && mask == Mask(n);
    MaskIs(x, n);
    MaskIs(y, n);
    ClearedIsMonotone(x, y, n);
  }

  lemma {:induction false} ClearedIsMonotone(x: nat, y: nat, n: nat)
    requires x <= y
    ensures Cleared(x, n) <= Cleared(y, n)
  {
    if n > 0 {
      ClearedIsMonotone(x / 2, y / 2, n - 1);
    }
  }

  /** Of two contiguous masks the smaller number has fewer ones. */
  lemma MaskTwice(x: Address, long: Address, short: Address)
    requires Contiguous(long) && Contiguous(short) && short <= long
    ensures And(And(x, long), short) == And(x, short)
  {
    var n: nat :| n <= 32 && long == Mask(n);
    var m: nat :| m <= 32 && short == Mask(m);
    MaskIs(x, n);
    MaskIs(And(x, long), m);
    MaskIs(x, m);
    if n > m {
      Pow2Up(m, n);
    } else {
      ClearedTwice(x, n, m);
    }
  }

  lemma {:induction false} ClearedTwice(x: nat, n: nat, m: nat)
    requires n <= m
    ensures Cleared(Cleared(x, n), m) == Cleared(x, m)
  {
    if n > 0 {
      ClearedTwice(x / 2, n - 1, m - 1);
    }
  }

  // ----- sorting -----

  /** The order of the table: prefix ascending, and within a prefix mask descending. */
  predicate Less(a: Route, b: Route) {
    a.prefix < b.prefix || (a.prefix == b.prefix && a.mask > b.mask)
  }

  predicate SortedRange(s: seq<Route>, lo: nat, hi: nat)
    requires lo <= hi <= |s|
  {
    forall i, j | lo <= i < j < hi :: !Less(s[j], s[i])
  }

  /** `b` is `a` with the entries from `lo` up to `hi` rearranged. */
  ghost predicate Rearranged(a: seq<Route>, b: seq<Route>, lo: nat, hi: nat) {
    && lo <= hi <= |a| && |a| == |b|
    && a[..lo] == b[..lo] && a[hi..] == b[hi..]
    && multiset(a[lo..hi]) == multiset(b[lo..hi])
  }

  lemma RearrangedTwice(a: seq<Route>, b: seq<Route>, c: seq<Route>, lo: nat, hi: nat)
    requires Rearranged(a, b, lo, hi) && Rearranged(b, c, lo, hi)
    ensures Rearranged(a, c, lo, hi)
  {
  }

  lemma RearrangedWider(a: seq<Route>, b: seq<Route>, lo: nat, hi: nat, lo': nat, hi': nat)
    requires lo' <= lo <= hi <= hi' <= |a| && Rearranged(a, b, lo, hi)
    ensures Rearranged(a, b, lo', hi')
  {
    Split(a, lo, hi, lo', hi');
    Split(b, lo, hi, lo', hi');
    assert a[..lo'] == a[..lo][..lo'] && b[..lo'] == b[..lo][..lo'];
    assert a[lo'..lo] == a[..lo][lo'..] && b[lo'..lo] == b[..lo][lo'..];
    assert a[hi'..] == a[hi..][hi' - hi..] && b[hi'..] == b[hi..][hi' - hi..];
    assert a[hi..hi'] == a[hi..][..hi' - hi] && b[hi..hi'] == b[hi..][..hi' - hi];
  }

  lemma Split(a: seq<Route>, lo: nat, hi: nat, lo': nat, hi': nat)
    requires lo' <= lo <= hi <= hi' <= |a|
    ensures multiset(a[lo'..hi']) == multiset(a[lo'..lo]) + multiset(a[lo..hi]) + multiset(a[hi..hi'])
  {
    assert a[lo'..hi'] == a[lo'..lo] + a[lo..hi] + a[hi..hi'];
  }

  lemma SwappedIsRearranged(a: seq<Route>, i: nat, j: nat, lo: nat, hi: nat)
    requires lo <= i <= j < hi <= |a|
    ensures Rearranged(a, a[i := a[j]][j := a[i]], lo, hi)
  {
    var b := a[i := a[j]][j := a[i]];
    assert a[..lo] == b[..lo] && a[hi..] == b[hi..];
    if i < j {
      var p, q, r := a[lo..i], a[i + 1..j], a[j + 1..hi];
      FiveParts(a, i, j, lo, hi);
      FiveParts(b, i, j, lo, hi);
      assert b[lo..i] == p && b[i + 1..j] == q && b[j + 1..hi] == r;
      hide *;
      assert multiset(a[lo..hi]) == multiset(b[lo..hi]);
    } else {
      assert b == a;
    }
  }

  lemma FiveParts(a: seq<Route>, i: nat, j: nat, lo: nat, hi: nat)
    requires lo <= i < j < hi <= |a|
    ensures multiset(a[lo..hi])
         == multiset(a[lo..i]) + multiset{a[i]} + multiset(a[i + 1..j]) + multiset{a[j]} + multiset(a[j + 1..hi])
  {
    assert a[lo..hi] == a[lo..i] + [a[i]] + a[i + 1..j] + [a[j]] + a[j + 1..hi];
  }

  /** What holds of every entry of a range still does when the range is rearranged. */
  lemma RearrangedKeeps(a: seq<Route>, b: seq<Route>, lo: nat, hi: nat, pivot: Route)
    requires Rearranged(a, b, lo, hi)
    ensures (forall k | lo <= k < hi :: Less(a[k], pivot)) ==> (forall k | lo <= k < hi :: Less(b[k], pivot))
    ensures (forall k | lo <= k < hi :: !Less(a[k], pivot)) ==> (forall k | lo <= k < hi :: !Less(b[k], pivot))
  {
    forall k | lo <= k < hi
      ensures exists m :: lo <= m < hi && a[m] == b[k]
    {
      assert b[lo..hi][k - lo] in multiset(b[lo..hi]);
      assert b[k] in multiset(a[lo..hi]);
      var m :| 0 <= m < hi - lo && a[lo..hi][m] == b[k];
      assert a[lo + m] == b[k];
    }
  }

  /** `swap`, field by field. */
  method Swap(rtable: array<Route>, i: nat, j: nat)
    requires i < rtable.Length && j < rtable.Length
    modifies rtable
    ensures rtable[..] == old(rtable[..])[i := old(rtable[j])][j := old(rtable[i])]
  {
    var aux := rtable[i];
    rtable[i] := rtable[i].(prefix := rtable[j].prefix, nextHop := rtable[j].nextHop,
                            mask := rtable[j].mask, interface := rtable[j].interface);
    rtable[j] := rtable[j].(prefix := aux.prefix, nextHop := aux.nextHop,
                            mask := aux.mask, interface := aux.interface);
  }

  /** The pivot is the last entry; what is less than it goes in front. */
  predicate Partitioned(s: seq<Route>, start: nat, p: nat, end: nat)
    requires start <= p <= end < |s|
  {
    && (forall k | start <= k < p :: Less(s[k], s[p]))
    && (forall k | p < k <= end :: !Less(s[k], s[p]))
  }

  /** While partitioning: less than the pivot up to `p`, not less from there to `i`. */
  ghost predicate Partitioning(was: seq<Route>, s: seq<Route>, start: nat, p: nat, i: nat, end: nat) {
    && start <= p <= i <= end < |s| && Rearranged(was, s, start, end + 1)
    && (forall k | start <= k < p :: Less(s[k], s[end]))
    && (forall k | p <= k < i :: !Less(s[k], s[end]))
  }

  function Swapped(s: seq<Route>, i: nat, j: nat): seq<Route>
    requires i < |s| && j < |s|
  {
    s[i := s[j]][j := s[i]]
  }

  lemma PartitionStarts(s: seq<Route>, start: nat, end: nat)
    requires start <= end < |s|
    ensures Partitioning(s, s, start, start, start, end)
  {
  }

  lemma SwapRearranges(was: seq<Route>, s: seq<Route>, i: nat, j: nat, lo: nat, hi: nat)
    requires Rearranged(was, s, lo, hi) && lo <= j <= i < hi <= |s|
    ensures Rearranged(was, Swapped(s, i, j), lo, hi)
  {
    hide Rearranged;
    assert Swapped(s, i, j) == s[j := s[i]][i := s[j]];
    SwappedIsRearranged(s, j, i, lo, hi);
    RearrangedTwice(was, s, Swapped(s, i, j), lo, hi);
  }

  lemma PartitionRound(was: seq<Route>, s: seq<Route>, start: nat, p: nat, i: nat, end: nat)
    requires Partitioning(was, s, start, p, i, end) && i < end
    ensures Less(s[i], s[end]) ==> Partitioning(was, Swapped(s, i, p), start, p + 1, i + 1, end)
    ensures !Less(s[i], s[end]) ==> Partitioning(was, s, start, p, i + 1, end)
  {
    hide Rearranged, Less;
    SwapRearranges(was, s, i, p, start, end + 1);
    var t := Swapped(s, i, p);
    assert t[end] == s[end] && t[p] == s[i] && t[i] == s[p];
    assert forall k | 0 <= k < |s| && k != p && k != i :: t[k] == s[k];
    hide Swapped;
  }

  lemma PartitionEnds(was: seq<Route>, s: seq<Route>, start: nat, p: nat, end: nat)
    requires Partitioning(was, s, start, p, end, end)
    ensures var t := Swapped(s, end, p); Partitioned(t, start, p, end) && Rearranged(was, t, start, end + 1)
  {
    hide Rearranged, Less;
    SwapRearranges(was, s, end, p, start, end + 1);
    var t := Swapped(s, end, p);
    NotLessThanItself(s[end]);
    assert t[p] == s[end] && t[end] == s[p];
    assert forall k | 0 <= k < |s| && k != p && k != end :: t[k] == s[k];
    hide Swapped;
  }

  lemma NotLessThanItself(a: Route)
    ensures !Less(a, a)
  {
  }

  /** `partition`. */
  method Partition(rtable: array<Route>, start: nat, end: nat) returns (p: nat)
    requires start <= end < rtable.Length
    modifies rtable
    ensures start <= p <= end && Partitioned(rtable[..], start, p, end)
    ensures Rearranged(old(rtable[..]), rtable[..], start, end + 1)
  {
    hide Rearranged, Partitioned;
    p := start;
    ghost var was := rtable[..];
    PartitionStarts(was, start, end);
    for i := start to end
      invariant Partitioning(was, rtable[..], start, p, i, end)
    {
      hide Partitioning;
      PartitionRound(was, rtable[..], start, p, i, end);
      if rtable[i].prefix < rtable[end].prefix {
        Swap(rtable, i, p);
        p := p + 1;
      } else if rtable[i].prefix == rtable[end].prefix {
        if rtable[i].mask > rtable[end].mask {
          Swap(rtable, i, p);
          p := p + 1;
        }
      }
    }
    PartitionEnds(was, rtable[..], start, p, end);
    Swap(rtable, end, p);
  }

  /** `quicksort`: the range is sorted, rearranged, and nothing outside it changes. */
  method Quicksort(rtable: array<Route>, start: int, end: int)
    requires 0 <= start <= end + 1 <= rtable.Length
    modifies rtable
    ensures SortedRange(rtable[..], start, end + 1)
    ensures Rearranged(old(rtable[..]), rtable[..], start, end + 1)
    decreases end - start + 1
  {
    hide Rearranged, Partitioned, Less;
    ghost var s0 := rtable[..];
    if start < end {
      var p: int := Partition(rtable, start, end);
      ghost var s1 := rtable[..];
      Quicksort(rtable, start, p - 1);
      ghost var s2 := rtable[..];
      Quicksort(rtable, p + 1, end);
      ghost var s3 := rtable[..];
      PartsAreRearranged(s0, s1, s2, s3, start, p, end);
      PartsAreSorted(s1, s2, s3, start, p, end);
    } else {
      NothingRearranged(s0, start, end + 1);
    }
  }

  lemma NothingRearranged(s: seq<Route>, lo: nat, hi: nat)
    requires lo <= hi <= |s|
    ensures Rearranged(s, s, lo, hi)
  {
  }

  lemma PartsAreRearranged(s0: seq<Route>, s1: seq<Route>, s2: seq<Route>, s3: seq<Route>,
                           start: nat, p: nat, end: nat)
    requires start <= p <= end < |s1| == |s2| && Rearranged(s0, s1, start, end + 1)
    requires Rearranged(s1, s2, start, p) && Rearranged(s2, s3, p + 1, end + 1)
    ensures Rearranged(s0, s3, start, end + 1)
  {
    hide Rearranged;
    RearrangedWider(s1, s2, start, p, start, end + 1);
    RearrangedWider(s2, s3, p + 1, end + 1, start, end + 1);
    RearrangedTwice(s0, s1, s2, start, end + 1);
    RearrangedTwice(s0, s2, s3, start, end + 1);
  }

  lemma UntouchedOutside(a: seq<Route>, b: seq<Route>, lo: nat, hi: nat)
    requires Rearranged(a, b, lo, hi)
    ensures |a| == |b| && lo <= hi <= |a|
    ensures forall k | 0 <= k < lo || hi <= k < |a| :: a[k] == b[k]
  {
    forall k | 0 <= k < lo || hi <= k < |a|
      ensures a[k] == b[k]
    {
      if k < lo {
        assert a[..lo][k] == b[..lo][k];
      } else {
        assert a[hi..][k - hi] == b[hi..][k - hi];
      }
    }
  }

  lemma LessIsTransitive(a: Route, b: Route, c: Route)
    requires Less(a, b) && !Less(c, b)
    ensures !Less(c, a)
  {
  }

  lemma PartsAreSorted(s1: seq<Route>, s2: seq<Route>, s3: seq<Route>, start: nat, p: nat, end: nat)
    requires start <= p <= end < |s1| && Partitioned(s1, start, p, end)
    requires Rearranged(s1, s2, start, p) && SortedRange(s2, start, p)
    requires Rearranged(s2, s3, p + 1, end + 1) && SortedRange(s3, p + 1, end + 1)
    ensures SortedRange(s3, start, end + 1)
  {
    hide Rearranged, Less;
    UntouchedOutside(s1, s2, start, p);
    UntouchedOutside(s2, s3, p + 1, end + 1);
    var pivot := s1[p];
    RearrangedKeeps(s1, s2, start, p, pivot);
    RearrangedKeeps(s2, s3, p + 1, end + 1, pivot);
    forall i, j | start <= i < j <= end
      ensures !Less(s3[j], s3[i])
    {
      if i < p < j {
        LessIsTransitive(s3[i], pivot, s3[j]);
      } else if i < p == j {
        NotLessThanItself(pivot);
        LessIsTransitive(s3[i], pivot, pivot);
      }
    }
  }

  // ----- searching -----

  /** `binarySearch`: the key that an entry is compared with depends on that entry's mask. */
  function BinarySearch(s: seq<Route>, l: int, r: int, dest: Address): (i: int)
    requires 0 <= l && r < |s|
    ensures i == -1 || (l <= i <= r && Matches(s[i], dest))
    decreases r - l + 1
  {
    if r >= l then
      var mid := l + (r - l) / 2;
      if And(dest, s[mid].mask) == s[mid].prefix then
        mid
      else if And(dest, s[mid].mask) < s[mid].prefix then
        BinarySearch(s, l, mid - 1, dest)
      else
        BinarySearch(s, mid + 1, r, dest)
    else
      -1
  }

  /** One probe of the search. */
  lemma Probe(s: seq<Route>, l: nat, r: nat, dest: Address)
    requires l <= r < |s|
    ensures var mid := l + (r - l) / 2;
            BinarySearch(s, l, r, dest)
            == if Matches(s[mid], dest) then mid
               else if And(dest, s[mid].mask) < s[mid].prefix then BinarySearch(s, l, mid - 1, dest)
               else BinarySearch(s, mid + 1, r, dest)
  {
    hide And;
  }

  /** The test of the walk to the left. The first entry has no left neighbour. */
  predicate LongerOnTheLeft(s: seq<Route>, i: nat, dest: Address)
    requires i < |s|
  {
    && i > 0 && Matches(s[i - 1], dest)
    && s[i - 1].mask > s[i].mask && s[i - 1].prefix == s[i].prefix
  }

  function WalkLeft(s: seq<Route>, i: nat, dest: Address): (k: nat)
    requires i < |s| && Matches(s[i], dest)
    ensures k <= i && Matches(s[k], dest) && !LongerOnTheLeft(s, k, dest)
  {
    if LongerOnTheLeft(s, i, dest) then WalkLeft(s, i - 1, dest) else i
  }

  function BestRoute(s: seq<Route>, dest: Address): (index: int)
    ensures index == -1 || (0 <= index < |s| && Matches(s[index], dest))
  {
    var found := BinarySearch(s, 0, |s| - 1, dest);
    if found == -1 then -1 else WalkLeft(s, found, dest)
  }

  /** `get_best_route`. On every table, sorted or not, an answer is an entry that matches. */
  method GetBestRoute(s: seq<Route>, dest: Address) returns (index: int)
    ensures index == BestRoute(s, dest)
    ensures index == -1 || (0 <= index < |s| && Matches(s[index], dest))
  {
    index := BinarySearch(s, 0, |s| - 1, dest);
    if index == -1 {
      return -1;
    }
    while LongerOnTheLeft(s, index, dest)
      invariant 0 <= index < |s| && Matches(s[index], dest)
      invariant WalkLeft(s, index, dest) == BestRoute(s, dest)
      decreases index
    {
      index := index - 1;
    }
  }

  // ----- longest-prefix match -----

  /** What a route lookup is for: an entry that matches, none with a longer mask, or -1 if there is none. */
  ghost predicate LongestMatch(s: seq<Route>, dest: Address, index: int) {
    if index == -1 then
      forall k | 0 <= k < |s| :: !Matches(s[k], dest)
    else
      && 0 <= index < |s| && Matches(s[index], dest)
      && forall k | 0 <= k < |s| && Matches(s[k], dest) :: s[k].mask <= s[index].mask
  }

  ghost predicate AllProper(s: seq<Route>) {
    forall k | 0 <= k < |s| :: Proper(s[k])
  }

  predicate Sorted(s: seq<Route>) {
    SortedRange(s, 0, |s|)
  }

  predicate NoDuplicates(s: seq<Route>) {
    forall i, j | 0 <= i < j < |s| :: s[i].prefix != s[j].prefix || s[i].mask != s[j].mask
  }

  /** No entry's prefix lies beyond a matching prefix and up to the destination. */
  predicate NothingBetween(s: seq<Route>, dest: Address) {
    forall i, j | 0 <= i < |s| && 0 <= j < |s| && Matches(s[i], dest) :: !(s[i].prefix < s[j].prefix <= dest)
  }

  /** With the same prefix, an entry with a shorter mask matches what one with a longer mask does. */
  lemma ShorterMaskMatches(long: Route, short: Route, dest: Address)
    requires Proper(long) && Proper(short) && long.prefix == short.prefix && short.mask <= long.mask
    requires Matches(long, dest)
    ensures Matches(short, dest)
  {
    MaskTwice(dest, long.mask, short.mask);
  }

  /** A probe that misses sends the search towards every entry that matches. */
  lemma ProbeSendsTowards(s: seq<Route>, mid: nat, k: nat, dest: Address)
    requires mid < |s| && k < |s| && Sorted(s) && AllProper(s) && NothingBetween(s, dest)
    requires Matches(s[k], dest) && !Matches(s[mid], dest)
    ensures if And(dest, s[mid].mask) < s[mid].prefix then k < mid else mid < k
  {
    hide Matches;
    var p, q, m := s[k].prefix, s[mid].prefix, s[mid].mask;
    assert p <= dest by { ProbeValue(s[k], dest); }
    ProbeValue(s[mid], dest);
    ProbeValue(s[mid], p);
    if q <= p {
      MaskingIsMonotone(m, p, dest);
      MaskingIsMonotone(m, q, p);
      if q == p && m <= s[k].mask {
        ShorterMaskMatches(s[k], s[mid], dest);
      }
    }
  }

  lemma ProbeValue(e: Route, dest: Address)
    ensures Matches(e, dest) <==> And(dest, e.mask) == e.prefix
    ensures And(dest, e.mask) <= dest
  {
  }

  lemma {:induction false} SearchFinds(s: seq<Route>, l: int, r: int, k: nat, dest: Address)
    requires 0 <= l <= k <= r < |s| && Sorted(s) && AllProper(s) && NothingBetween(s, dest)
    requires Matches(s[k], dest)
    ensures BinarySearch(s, l, r, dest) != -1
    decreases r - l
  {
    hide AllProper, Sorted, NothingBetween, And, Matches, BinarySearch;
    Probe(s, l, r, dest);
    var mid := l + (r - l) / 2;
    if !Matches(s[mid], dest) {
      ProbeSendsTowards(s, mid, k, dest);
      if And(dest, s[mid].mask) < s[mid].prefix {
        SearchFinds(s, l, mid - 1, k, dest);
      } else {
        SearchFinds(s, mid + 1, r, k, dest);
      }
    }
  }

  /** Where the walk stops, no entry with the same prefix matches with a longer mask. */
  lemma WalkEndsAtTheLongest(s: seq<Route>, i: nat, k: nat, dest: Address)
    requires i < |s| && k < |s| && Sorted(s) && AllProper(s) && NoDuplicates(s)
    requires Matches(s[i], dest) && Matches(s[k], dest) && s[k].prefix == s[i].prefix
    requires !LongerOnTheLeft(s, i, dest)
    ensures s[k].mask <= s[i].mask
  {
    hide Matches, Proper;
    if k < i {
      assert !Less(s[i - 1], s[k]) && !Less(s[i], s[i - 1]);
      assert s[i - 1].prefix == s[i].prefix;
      ShorterMaskMatches(s[k], s[i - 1], dest);
    } else if i < k {
      assert !Less(s[k], s[i]);
    }
  }

  /** For one destination: with nothing between, the lookup is a longest-prefix match. */
  lemma LookupIsLongestMatch(s: seq<Route>, dest: Address)
    requires Sorted(s) && AllProper(s) && NoDuplicates(s) && NothingBetween(s, dest)
    ensures LongestMatch(s, dest, BestRoute(s, dest))
  {
    hide AllProper, Sorted, NoDuplicates;
    var index := BestRoute(s, dest);
    forall k | 0 <= k < |s| && Matches(s[k], dest)
      ensures index != -1 && s[k].mask <= s[index].mask
    {
      SearchFinds(s, 0, |s| - 1, k, dest);
      ProbeValue(s[k], dest);
      ProbeValue(s[index], dest);
      assert s[k].prefix == s[index].prefix;
      WalkEndsAtTheLongest(s, index, k, dest);
    }
  }

  /** Two entries overlap when some destination matches both. */
  ghost predicate Overlap(a: Route, b: Route) {
    exists x: Address :: Matches(a, x) && Matches(b, x)
  }

  ghost predicate OverlapsShareAPrefix(s: seq<Route>) {
    forall i, j | 0 <= i < |s| && 0 <= j < |s| && Overlap(s[i], s[j]) :: s[i].prefix == s[j].prefix
  }

  /** An entry whose prefix lies from a matching prefix up to the destination overlaps the matching one. */
  lemma WhatLiesBetweenOverlaps(a: Route, b: Route, dest: Address)
    requires Proper(a) && Proper(b) && Matches(a, dest) && a.prefix <= b.prefix <= dest
    ensures Overlap(a, b)
  {
    MaskingIsMonotone(a.mask, a.prefix, b.prefix);
    MaskingIsMonotone(a.mask, b.prefix, dest);
    assert Matches(a, b.prefix) && Matches(b, b.prefix);
  }

  lemma NothingOverlappingIsBetween(s: seq<Route>, dest: Address)
    requires AllProper(s) && OverlapsShareAPrefix(s)
    ensures NothingBetween(s, dest)
  {
    hide Overlap, Proper;
    forall i, j | 0 <= i < |s| && 0 <= j < |s| && Matches(s[i], dest)
      ensures !(s[i].prefix < s[j].prefix <= dest)
    {
      if s[i].prefix < s[j].prefix <= dest {
        WhatLiesBetweenOverlaps(s[i], s[j], dest);
      }
    }
  }

  /** Longest-prefix match, for every destination. */
  lemma LongestPrefixMatch(s: seq<Route>, dest: Address)
    requires Sorted(s) && AllProper(s) && NoDuplicates(s) && OverlapsShareAPrefix(s)
    ensures LongestMatch(s, dest, BestRoute(s, dest))
  {
    NothingOverlappingIsBetween(s, dest);
    LookupIsLongestMatch(s, dest);
  }

  // ----- the condition is exact -----

  /** A table that the router could hold, made of entries of `s`. */
  ghost predicate DrawnFrom(t: seq<Route>, s: seq<Route>) {
    Sorted(t) && NoDuplicates(t) && forall k | 0 <= k < |t| :: t[k] in s
  }

  ghost predicate RoutesRightly(t: seq<Route>) {
    forall dest: Address :: LongestMatch(t, dest, BestRoute(t, dest))
  }

  /** Two overlapping entries with different prefixes, in the order of the table, are already routed wrongly. */
  lemma OverlappingPairIsWrong(a: Route, b: Route)
    requires Proper(a) && Proper(b) && a.prefix < b.prefix && Overlap(a, b)
    ensures Sorted([a, b]) && NoDuplicates([a, b])
    ensures BestRoute([a, b], b.prefix) == 0 && !LongestMatch([a, b], b.prefix, 0)
  {
    var x: Address :| Matches(a, x) && Matches(b, x);
    if b.mask <= a.mask {
      MaskTwice(x, a.mask, b.mask);
      assert false;
    }
    MaskTwice(x, b.mask, a.mask);
    var t := [a, b];
    assert Matches(t[0], b.prefix) && Matches(t[1], b.prefix);
    assert BinarySearch(t, 0, 1, b.prefix) == 0;
  }

  /** The overlap condition holds if and only if every table of these entries routes every destination rightly. */
  lemma OverlapConditionIsExact(s: seq<Route>)
    requires AllProper(s)
    ensures OverlapsShareAPrefix(s) <==> forall t | DrawnFrom(t, s) :: RoutesRightly(t)
  {
    hide BestRoute, LongestMatch, Sorted, NoDuplicates, Overlap, Proper;
    if OverlapsShareAPrefix(s) {
      forall t | DrawnFrom(t, s)
        ensures RoutesRightly(t)
      {
        assert AllProper(t) && OverlapsShareAPrefix(t);
        forall dest: Address
          ensures LongestMatch(t, dest, BestRoute(t, dest))
        {
          LongestPrefixMatch(t, dest);
        }
      }
    } else {
      var i, j :| 0 <= i < |s| && 0 <= j < |s| && Overlap(s[i], s[j]) && s[i].prefix != s[j].prefix;
      OverlapIsMutual(s[i], s[j]);
      var a, b := if s[i].prefix < s[j].prefix then s[i] else s[j], if s[i].prefix < s[j].prefix then s[j] else s[i];
      OverlappingPairIsWrong(a, b);
      assert DrawnFrom([a, b], s) && !RoutesRightly([a, b]);
    }
  }

  lemma OverlapIsMutual(a: Route, b: Route)
    ensures Overlap(a, b) <==> Overlap(b, a)
  {
  }

  // ----- the exact condition, for masks of any shape -----

  /**
   Two entries in the order of the table, the second one matching: the first one must send
   the search on towards it, or match itself with a mask that is as long.
   */
  predicate PairFits(a: Route, b: Route, dest: Address) {
    Less(a, b) && Matches(b, dest) ==>
      And(dest, a.mask) > a.prefix || (Matches(a, dest) && a.mask >= b.mask)
  }

  /**
   Three entries in the order of the table, the first one matching: the second one must
   send the search back towards it, or match with the same prefix, so that the walk gets there.
   */
  predicate TripleFits(a: Route, b: Route, c: Route, dest: Address) {
    Less(a, b) && Less(b, c) && Matches(a, dest) ==>
      And(dest, b.mask) < b.prefix || (Matches(b, dest) && a.prefix == b.prefix)
  }

  /** Every two and every three entries fit. */
  ghost predicate FitsFor(s: seq<Route>, dest: Address) {
    && (forall a, b | a in s && b in s :: PairFits(a, b, dest))
    && (forall a, b, c | a in s && b in s && c in s :: TripleFits(a, b, c, dest))
  }

  lemma StrictlyAscending(t: seq<Route>, i: nat, j: nat)
    requires Sorted(t) && NoDuplicates(t) && i < j < |t|
    ensures Less(t[i], t[j])
  {
  }

  /** Two entries that match with the same mask have the same prefix. */
  lemma SameMaskIsNotLess(a: Route, b: Route, dest: Address)
    requires Matches(a, dest) && Matches(b, dest) && a.mask == b.mask
    ensures !Less(a, b)
  {
  }

  /** The index of a longest match. */
  ghost predicate Longest(t: seq<Route>, dest: Address, m: nat) {
    m < |t| && Matches(t[m], dest) && forall k | 0 <= k < |t| && Matches(t[k], dest) :: t[k].mask <= t[m].mask
  }

  lemma {:induction false} LongestExists(t: seq<Route>, dest: Address, k: nat) returns (m: nat)
    requires k < |t| && Matches(t[k], dest)
    ensures Longest(t, dest, m)
    decreases WORD - t[k].mask
  {
    if j :| 0 <= j < |t| && Matches(t[j], dest) && t[j].mask > t[k].mask {
      m := LongestExists(t, dest, j);
    } else {
      m := k;
    }
  }

  /** Where all entries fit, a probe hits the prefix of the longest match from above or sends the search towards it. */
  lemma ProbeFits(t: seq<Route>, l: nat, r: nat, m: nat, dest: Address)
    requires Sorted(t) && NoDuplicates(t) && FitsFor(t, dest) && Longest(t, dest, m)
    requires l <= m <= r < |t|
    ensures var mid := l + (r - l) / 2;
            if Matches(t[mid], dest) then m <= mid && t[mid].prefix == t[m].prefix
            else if And(dest, t[mid].mask) < t[mid].prefix then m < mid
            else mid < m
  {
    hide And, Matches, Less, Sorted, NoDuplicates;
    var mid := l + (r - l) / 2;
    ProbeValue(t[mid], dest);
    if mid < m {
      StrictlyAscending(t, mid, m);
      assert PairFits(t[mid], t[m], dest);
      if Matches(t[mid], dest) {
        SameMaskIsNotLess(t[mid], t[m], dest);
      }
    } else if m < mid {
      StrictlyAscending(t, m, mid);
      StrictlyAscending(t, mid, r);
      assert TripleFits(t[m], t[mid], t[r], dest);
    }
  }

  lemma {:induction false} SearchReaches(t: seq<Route>, l: nat, r: nat, m: nat, dest: Address)
    requires Sorted(t) && NoDuplicates(t) && FitsFor(t, dest) && Longest(t, dest, m)
    requires l <= m <= r < |t|
    ensures var x := BinarySearch(t, l, r, dest);
            m <= x < |t| && t[x].prefix == t[m].prefix
    decreases r - l
  {
    hide Sorted, NoDuplicates, FitsFor, Longest, And, Matches, BinarySearch;
    Probe(t, l, r, dest);
    var mid := l + (r - l) / 2;
    ProbeFits(t, l, r, m, dest);
    if !Matches(t[mid], dest) {
      if And(dest, t[mid].mask) < t[mid].prefix {
        SearchReaches(t, l, mid - 1, m, dest);
      } else {
        SearchReaches(t, mid + 1, r, m, dest);
      }
    }
  }

  /** Between the longest match and a match with the same prefix every entry matches. */
  lemma BetweenMatches(t: seq<Route>, m: nat, y: nat, x: nat, dest: Address)
    requires Sorted(t) && NoDuplicates(t) && FitsFor(t, dest)
    requires m < y < x < |t| && Matches(t[m], dest) && Matches(t[x], dest)
    ensures Matches(t[y], dest)
  {
    hide And, Matches, Less, Sorted, NoDuplicates;
    ProbeValue(t[y], dest);
    StrictlyAscending(t, m, y);
    StrictlyAscending(t, y, x);
    assert TripleFits(t[m], t[y], t[x], dest) && PairFits(t[y], t[x], dest);
  }

  lemma {:induction false} WalkReaches(t: seq<Route>, m: nat, x: nat, dest: Address)
    requires Sorted(t) && NoDuplicates(t) && FitsFor(t, dest) && Longest(t, dest, m)
    requires m <= x < |t| && Matches(t[x], dest) && t[x].prefix == t[m].prefix
    ensures WalkLeft(t, x, dest) == m
    decreases x
  {
    hide Matches, FitsFor;
    if m < x {
      if m < x - 1 {
        BetweenMatches(t, m, x - 1, x, dest);
        assert !Less(t[x - 1], t[m]) && !Less(t[x], t[x - 1]);
      }
      assert t[x - 1].prefix == t[m].prefix;
      assert !Less(t[x], t[x - 1]);
      WalkReaches(t, m, x - 1, dest);
    }
  }

  lemma FittingTableIsRight(t: seq<Route>, dest: Address)
    requires Sorted(t) && NoDuplicates(t) && FitsFor(t, dest)
    ensures LongestMatch(t, dest, BestRoute(t, dest))
  {
    hide Matches, FitsFor, Sorted, NoDuplicates;
    if k :| 0 <= k < |t| && Matches(t[k], dest) {
      var m := LongestExists(t, dest, k);
      SearchReaches(t, 0, |t| - 1, m, dest);
      WalkReaches(t, m, BinarySearch(t, 0, |t| - 1, dest), dest);
    }
  }

  /** Two entries that do not fit are a table that misroutes. */
  lemma UnfitPairIsWrong(a: Route, b: Route, dest: Address)
    requires !PairFits(a, b, dest)
    ensures Sorted([a, b]) && NoDuplicates([a, b])
    ensures !LongestMatch([a, b], dest, BestRoute([a, b], dest))
    ensures !Matches(a, dest) ==> BestRoute([a, b], dest) == -1
  {
    hide And;
    var t := [a, b];
    assert t[0] == a && t[1] == b;
    ProbeValue(a, dest);
    assert BinarySearch(t, 0, -1, dest) == -1;
    assert BinarySearch(t, 0, 1, dest) == if Matches(a, dest) then 0 else -1;
  }

  /** Three entries that do not fit, while every two of them do, are a table that misroutes. */
  lemma UnfitTripleIsWrong(a: Route, b: Route, c: Route, dest: Address)
    requires !TripleFits(a, b, c, dest) && PairFits(a, b, dest) && PairFits(a, c, dest)
    ensures Sorted([a, b, c]) && NoDuplicates([a, b, c])
    ensures !LongestMatch([a, b, c], dest, BestRoute([a, b, c], dest))
  {
    hide And;
    var t := [a, b, c];
    assert t[0] == a && t[1] == b && t[2] == c;
    ProbeValue(a, dest);
    ProbeValue(b, dest);
    assert BinarySearch(t, 3, 2, dest) == -1 && BinarySearch(t, 2, 1, dest) == -1;
    assert BinarySearch(t, 2, 2, dest) == if Matches(c, dest) then 2 else -1;
    assert BinarySearch(t, 0, 2, dest) == if Matches(b, dest) then 1 else BinarySearch(t, 2, 2, dest);
  }

  /** Exactly when a destination is routed rightly by every table of these entries, whatever their masks. */
  lemma RouteConditionIsExact(s: seq<Route>, dest: Address)
    ensures FitsFor(s, dest) <==> forall t | DrawnFrom(t, s) :: LongestMatch(t, dest, BestRoute(t, dest))
  {
    hide BestRoute, LongestMatch, Sorted, NoDuplicates, PairFits, TripleFits;
    if FitsFor(s, dest) {
      forall t | DrawnFrom(t, s)
        ensures LongestMatch(t, dest, BestRoute(t, dest))
      {
        FittingTableIsRight(t, dest);
      }
    } else if a, b :| a in s && b in s && !PairFits(a, b, dest) {
      UnfitPairIsWrong(a, b, dest);
      assert DrawnFrom([a, b], s);
    } else {
      var a, b, c :| a in s && b in s && c in s && !TripleFits(a, b, c, dest);
      UnfitTripleIsWrong(a, b, c, dest);
      assert DrawnFrom([a, b, c], s);
    }
  }

  /** The same for all destinations. */
  lemma TableConditionIsExact(s: seq<Route>)
    ensures (forall dest: Address :: FitsFor(s, dest)) <==> forall t | DrawnFrom(t, s) :: RoutesRightly(t)
  {
    hide BestRoute, LongestMatch, DrawnFrom, FitsFor;
    if forall dest: Address :: FitsFor(s, dest) {
      forall t, dest: Address | DrawnFrom(t, s)
        ensures LongestMatch(t, dest, BestRoute(t, dest))
      {
        RouteConditionIsExact(s, dest);
      }
    } else {
      var dest: Address :| !FitsFor(s, dest);
      RouteConditionIsExact(s, dest);
    }
  }

  /** With masks of ones and zeros, fitting for every destination is sharing prefixes where entries overlap. */
  lemma ProperEntriesFitIff(s: seq<Route>)
    requires AllProper(s)
    ensures (forall dest: Address :: FitsFor(s, dest)) <==> OverlapsShareAPrefix(s)
  {
    hide FitsFor, AllProper, OverlapsShareAPrefix, DrawnFrom, RoutesRightly;
    TableConditionIsExact(s);
    OverlapConditionIsExact(s);
  }

  // ----- the exact condition for finding anything at all -----

  /** An entry that does not match must send the search on towards a later one that does. */
  predicate PairFinds(a: Route, b: Route, dest: Address) {
    Less(a, b) && !Matches(a, dest) && Matches(b, dest) ==> And(dest, a.mask) >= a.prefix
  }

  /** And back towards an earlier one that does, when a still later one does not. */
  predicate TripleFinds(a: Route, b: Route, c: Route, dest: Address) {
    Less(a, b) && Less(b, c) && Matches(a, dest) && !Matches(b, dest) && !Matches(c, dest) ==>
      And(dest, b.mask) < b.prefix
  }

  ghost predicate FindsFor(s: seq<Route>, dest: Address) {
    && (forall a, b | a in s && b in s :: PairFinds(a, b, dest))
    && (forall a, b, c | a in s && b in s && c in s :: TripleFinds(a, b, c, dest))
  }

  /** The search answers -1 only where nothing matches. */
  ghost predicate Finds(t: seq<Route>, dest: Address) {
    BinarySearch(t, 0, |t| - 1, dest) == -1 ==> forall k | 0 <= k < |t| :: !Matches(t[k], dest)
  }

  /** Where all entries fit, a probe that misses leaves a match in the half that the search goes to. */
  lemma ProbeFinds(t: seq<Route>, l: nat, r: nat, k: nat, dest: Address)
    requires Sorted(t) && NoDuplicates(t) && FindsFor(t, dest)
    requires l <= k <= r < |t| && Matches(t[k], dest) && !Matches(t[l + (r - l) / 2], dest)
    ensures var mid := l + (r - l) / 2;
            if And(dest, t[mid].mask) < t[mid].prefix then k < mid
            else mid < k || (mid < r && Matches(t[r], dest))
  {
    hide And, Matches, Less, Sorted, NoDuplicates;
    var mid := l + (r - l) / 2;
    if mid < k {
      StrictlyAscending(t, mid, k);
      assert PairFinds(t[mid], t[k], dest);
    } else {
      StrictlyAscending(t, k, mid);
      StrictlyAscending(t, mid, r);
      assert TripleFinds(t[k], t[mid], t[r], dest);
    }
  }

  lemma {:induction false} FittingSearchFinds(t: seq<Route>, l: nat, r: nat, k: nat, dest: Address)
    requires Sorted(t) && NoDuplicates(t) && FindsFor(t, dest)
    requires l <= k <= r < |t| && Matches(t[k], dest)
    ensures BinarySearch(t, l, r, dest) != -1
    decreases r - l
  {
    hide And, Sorted, NoDuplicates, FindsFor, Matches, BinarySearch;
    Probe(t, l, r, dest);
    var mid := l + (r - l) / 2;
    if !Matches(t[mid], dest) {
      ProbeFinds(t, l, r, k, dest);
      if And(dest, t[mid].mask) < t[mid].prefix {
        FittingSearchFinds(t, l, mid - 1, k, dest);
      } else {
        FittingSearchFinds(t, mid + 1, r, if mid < k then k else r, dest);
      }
    }
  }

  lemma UnfitPairIsMissed(a: Route, b: Route, dest: Address)
    requires !PairFinds(a, b, dest)
    ensures Sorted([a, b]) && NoDuplicates([a, b]) && !Finds([a, b], dest)
  {
    hide And;
    var t := [a, b];
    assert t[0] == a && t[1] == b;
    assert BinarySearch(t, 0, -1, dest) == -1;
    assert BinarySearch(t, 0, 1, dest) == -1;
  }

  lemma UnfitTripleIsMissed(a: Route, b: Route, c: Route, dest: Address)
    requires !TripleFinds(a, b, c, dest)
    ensures Sorted([a, b, c]) && NoDuplicates([a, b, c]) && !Finds([a, b, c], dest)
  {
    hide And;
    var t := [a, b, c];
    assert t[0] == a && t[1] == b && t[2] == c;
    ProbeValue(b, dest);
    assert BinarySearch(t, 3, 2, dest) == -1 && BinarySearch(t, 2, 1, dest) == -1;
    assert BinarySearch(t, 2, 2, dest) == -1;
    assert BinarySearch(t, 0, 2, dest) == -1;
  }

  /** Exactly when every table of these entries finds an entry for a destination that one of its entries matches. */
  lemma SearchConditionIsExact(s: seq<Route>, dest: Address)
    ensures FindsFor(s, dest) <==> forall t | DrawnFrom(t, s) :: Finds(t, dest)
  {
    hide Sorted, NoDuplicates, PairFinds, TripleFinds;
    if FindsFor(s, dest) {
      forall t | DrawnFrom(t, s)
        ensures Finds(t, dest)
      {
        if k :| 0 <= k < |t| && Matches(t[k], dest) {
          FittingSearchFinds(t, 0, |t| - 1, k, dest);
        }
      }
    } else {
      hide Finds;
      if a, b :| a in s && b in s && !PairFinds(a, b, dest) {
        UnfitPairIsMissed(a, b, dest);
        assert DrawnFrom([a, b], s);
      } else {
        var a, b, c :| a in s && b in s && c in s && !TripleFinds(a, b, c, dest);
        UnfitTripleIsMissed(a, b, c, dest);
        assert DrawnFrom([a, b, c], s);
      }
    }
  }

  // ----- after sorting -----

  /** Two places with equal entries count twice. */
  lemma TwiceInTheMultiset(s: seq<Route>, i: nat, j: nat)
    requires i < j < |s| && s[i] == s[j]
    ensures multiset(s)[s[i]] >= 2
  {
    assert s == s[..i] + [s[i]] + s[i + 1..j] + [s[j]] + s[j + 1..];
  }

  /** Freedom from duplicates does not depend on the order. */
  lemma NoDuplicatesAfterSorting(s: seq<Route>, t: seq<Route>)
    requires multiset(s) == multiset(t) && NoDuplicates(s)
    ensures NoDuplicates(t)
  {
    forall i, j | 0 <= i < j < |t|
      ensures t[i].prefix != t[j].prefix || t[i].mask != t[j].mask
    {
      assert t[i] in multiset(t) && t[j] in multiset(t);
      assert t[i] in multiset(s) && t[j] in multiset(s);
      var a :| 0 <= a < |s| && s[a] == t[i];
      var b :| 0 <= b < |s| && s[b] == t[j];
      if t[i] == t[j] {
        TwiceInTheMultiset(t, i, j);
        OnceInTheMultiset(s, a);
      }
    }
  }

  lemma OnceInTheMultiset(s: seq<Route>, a: nat)
    requires a < |s| && NoDuplicates(s)
    ensures multiset(s)[s[a]] == 1
  {
    assert s == s[..a] + [s[a]] + s[a + 1..];
    assert s[a] !in s[..a] && s[a] !in s[a + 1..];
  }

  /** Sorting a table without duplicates gives a table that the search can use. */
  lemma SortedTableIsDrawn(s: seq<Route>, t: seq<Route>)
    requires NoDuplicates(s) && Rearranged(s, t, 0, |s|) && SortedRange(t, 0, |t|)
    ensures DrawnFrom(t, s)
  {
    assert s[0..|s|] == s && t[0..|t|] == t;
    NoDuplicatesAfterSorting(s, t);
    forall k | 0 <= k < |t|
      ensures t[k] in s
    {
      assert t[k] in multiset(t);
      assert t[k] in multiset(s);
    }
  }

  /** A table as it is read from the file, once sorted, gives a destination for which it fits its longest match. */
  lemma SortedTableRoutes(s: seq<Route>, t: seq<Route>, dest: Address)
    requires NoDuplicates(s) && FitsFor(s, dest)
    requires Rearranged(s, t, 0, |s|) && SortedRange(t, 0, |t|)
    ensures LongestMatch(t, dest, BestRoute(t, dest))
  {
    hide BestRoute, LongestMatch, FitsFor, NoDuplicates, Rearranged, DrawnFrom;
    SortedTableIsDrawn(s, t);
    RouteConditionIsExact(s, dest);
  }

  /** With masks of ones and zeros, and overlapping entries that share their prefix, every destination. */
  lemma SortedProperTableRoutes(s: seq<Route>, t: seq<Route>, dest: Address)
    requires AllProper(s) && NoDuplicates(s) && OverlapsShareAPrefix(s)
    requires Rearranged(s, t, 0, |s|) && SortedRange(t, 0, |t|)
    ensures LongestMatch(t, dest, BestRoute(t, dest))
  {
    hide BestRoute, LongestMatch, FitsFor, NoDuplicates, Rearranged, AllProper, OverlapsShareAPrefix;
    ProperEntriesFitIff(s);
    SortedTableRoutes(s, t, dest);
  }

  // ----- the raw numbers of a little-endian host -----

  /** The number that the four bytes of a.b.c.d make on a little-endian host. */
  function Raw(a: nat, b: nat, c: nat, d: nat): (r: Address)
    requires a < 256 && b < 256 && c < 256 && d < 256
  {
    a + 0x100 * b + 0x1_0000 * c + 0x100_0000 * d
  }

  /** Byte `k` from the low end of the mask whose `n` low bits are zero. */
  function MaskByte(n: nat, k: nat): (b: nat)
    ensures b < 256
  {
    if n <= 8 * k then 255
    else if n >= 8 * k + 8 then 0
    else
      Pow2Up(n - 8 * k, 8);
      Pow2Values();
      256 - Pow2(n - 8 * k)
  }

  function RawMask(n: nat): Address {
    Raw(MaskByte(n, 3), MaskByte(n, 2), MaskByte(n, 1), MaskByte(n, 0))
  }

  lemma {:induction false} Pow2Split(m: nat, n: nat)
    ensures Pow2(m + n) == Pow2(m) * Pow2(n)
  {
    if m > 0 {
      Pow2Split(m - 1, n);
    }
  }

  lemma MaskIsItsBytes(n: nat)
    requires n <= 32
    ensures Mask(n)
         == MaskByte(n, 3) * 0x100_0000 + MaskByte(n, 2) * 0x1_0000 + MaskByte(n, 1) * 0x100 + MaskByte(n, 0)
  {
    Pow2Values();
    assert Pow2(24) == 0x100_0000 by { Pow2Split(16, 8); }
    var k := if n < 8 then 0 else if n < 16 then 1 else if n < 24 then 2 else 3;
    Pow2Split(n - 8 * k, 8 * k);
    hide Pow2;
  }

  lemma MaskByteShrinks(m: nat, n: nat, k: nat)
    requires m <= n
    ensures MaskByte(n, k) <= MaskByte(m, k)
  {
    if 8 * k < m && n < 8 * k + 8 {
      Pow2Up(m - 8 * k, n - 8 * k);
    }
  }

  /** In the raw reading, too, a longer mask is a greater number. */
  lemma RawMasksGrow(m: nat, n: nat)
    requires m < n <= 32
    ensures RawMask(n) < RawMask(m)
  {
    MaskByteShrinks(m, n, 0);
    MaskByteShrinks(m, n, 1);
    MaskByteShrinks(m, n, 2);
    MaskByteShrinks(m, n, 3);
    MaskIsItsBytes(m);
    MaskIsItsBytes(n);
    Pow2Up(m, n);
    hide MaskByte;
  }

  /**
   The entries 10.0.0.0/8 and 5.1.0.0/16 compared as raw little-endian numbers: they do not
   overlap, and yet they do not fit for 5.1.0.0, which their table does not find.
   */
  lemma RawNumbersMiss(a: Route, b: Route, dest: Address)
    requires a.prefix == Raw(10, 0, 0, 0) && a.mask == Raw(255, 0, 0, 0)
    requires b.prefix == Raw(5, 1, 0, 0) && b.mask == Raw(255, 255, 0, 0)
    requires dest == Raw(5, 1, 0, 0)
    ensures !Overlap(a, b) && !PairFinds(a, b, dest) && !PairFits(a, b, dest)
    ensures DrawnFrom([a, b], [a, b]) && BestRoute([a, b], dest) == -1 && !LongestMatch([a, b], dest, -1)
  {
    hide And, BestRoute, LongestMatch, Sorted, NoDuplicates;
    RawMasked();
    UnfitPairIsWrong(a, b, dest);
    forall x: Address | Matches(a, x)
      ensures !Matches(b, x)
    {
      AndParity(x, a.mask);
      AndParity(x, b.mask);
    }
  }

  lemma RawMasked()
    ensures And(0x105, 0xFF) == 5 && And(0x105, 0xFFFF) == 0x105
  {
    RawLowByte();
    RawKept();
    hide *;
  }

  lemma RawLowByte()
    ensures And(0x105, 0xFF) == 5
  {
    AndDouble(1, 0, 0);
    AndDouble(2, 1, 0);
    AndDouble(4, 3, 0);
    AndDouble(8, 7, 0);
    AndDouble(0x10, 0xF, 0);
    AndDouble(0x20, 0x1F, 1);
    AndDouble(0x41, 0x3F, 0);
    AndDouble(0x82, 0x7F, 1);
    AndHalves(1, 0);
    hide *;
  }

  lemma AndDouble(x: nat, mask: nat, bit: nat)
    requires bit < 2
    ensures And(2 * x + bit, 2 * mask + 1) == 2 * And(x, mask) + bit
  {
    AndHalves(2 * x + bit, 2 * mask + 1);
    hide And;
  }

  lemma RawKept()
    ensures And(0x105, 0xFFFF) == 0x105
  {
    Pow2Values();
    MaskingClears(0x105, 16, 0);
    assert Cleared(0x105, 0) == 0x105;
    hide *;
  }

  lemma AndParity(x: nat, mask: nat)
    requires mask % 2 == 1
    ensures And(x, mask) % 2 == x % 2
  {
    AndHalves(x, mask);
    hide *;
    var half := And(x / 2, mask / 2);
    assert (2 * half) % 2 == 0;
  }
}
