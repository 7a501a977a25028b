/**
 Decimal numerals as texts, valued independently of the reader: which of them parson
 takes, and that it takes them for the number they denote.
 */
module JsonNumeral {
  import opened CString
  import opened JsonNumber

  datatype Exponent = Exponent(letter: byte, sign: bytes, digits: bytes)
  {
    function Text(): bytes {
      [letter] + sign + digits
    }

    ghost predicate Legal() {
      && (letter == Byte('e') || letter == Byte('E'))
      && (sign == [] || sign == [Byte('+')] || sign == [Byte('-')])
      && digits != [] && AllDigits(digits)
    }
  }

  function ExponentText(exponent: Option<Exponent>): bytes {
    match exponent
    case None => []
    case Some(e) => e.Text()
  }

  /** The power of ten an exponent stands for. */
  ghost function Signed(exponent: Option<Exponent>): int
    requires exponent.Some? ==> exponent.value.Legal()
  {
    match exponent
    case None => 0
    case Some(e) => if e.sign == [Byte('-')] then 0 - ValueOf(e.digits) as int else ValueOf(e.digits)
  }

  function PointText(point: bool, fraction: bytes): bytes {
    if point then [Byte('.')] + fraction else []
  }

  datatype Numeral = Numeral(minus: bool, whole: bytes, point: bool, fraction: bytes, exponent: Option<Exponent>)
  {
    function Unsigned(): bytes {
      whole + (PointText(point, fraction) + ExponentText(exponent))
    }

    function Text(): bytes {
      (if minus then [Byte('-')] else []) + Unsigned()
    }

    /** Digits, and digits behind the point; a zero in front only alone. */
    ghost predicate Formed() {
      && AllDigits(whole) && AllDigits(fraction) && (!point ==> fraction == [])
      && (exponent.Some? ==> exponent.value.Legal())
      && (whole != [] && whole[0] == Byte('0') ==> |whole| == 1)
    }

    /** The numerals of RFC 8259 section 6. */
    ghost predicate Legal() {
      Formed() && whole != [] && (point ==> fraction != [])
    }

    /** A lone zero with an exponent directly behind it, such as `0e5`. */
    predicate ZeroWithExponent() {
      whole == [Byte('0')] && !point && exponent.Some?
    }

    /**
     What the reader takes: one side of the point may be without digits (the left one
     behind a minus only), and a lone zero has no exponent directly behind it.
     */
    ghost predicate Taken() {
      Formed() && !ZeroWithExponent() && whole + fraction != [] && (whole == [] ==> minus)
    }

    /** The power of ten that multiplies and the one that divides. */
    ghost function Up(): nat
      requires Formed()
    {
      if Signed(exponent) > 0 then Signed(exponent) else 0
    }

    ghost function Down(): nat
      requires Formed()
    {
      |fraction| + if Signed(exponent) < 0 then -Signed(exponent) else 0
    }

    /** The number that the numeral denotes. */
    ghost predicate Denotes(x: real)
      requires Formed()
    {
      Amounts(if minus then -x else x, ValueOf(whole + fraction), Up(), Down())
    }
  }

  /** `x` is `m` times ten to the power `up - down`, without any negative power. */
  ghost predicate Amounts(x: real, m: nat, up: nat, down: nat) {
    x * TenTo(down) as real == (m * TenTo(up)) as real
  }

  ghost predicate AllDigits(s: bytes) {
    forall i | 0 <= i < |s| :: Byte('0') <= s[i] <= Byte('9')
  }

  ghost function TenTo(k: nat): (r: nat)
    ensures r > 0
  {
    if k == 0 then 1 else TenTo(k - 1) * 10
  }

  /** Every digit counts with the power of ten of its place. */
  ghost function ValueOf(digits: bytes): nat
    requires AllDigits(digits)
  {
    if digits == [] then 0
    else (digits[0] as int - 0x30) * TenTo(|digits| - 1) + ValueOf(digits[1..])
  }

  // ----- values -----

  lemma {:induction false} ValueSnoc(digits: bytes, c: byte)
    requires AllDigits(digits) && AllDigits([c])
    ensures ValueOf(digits + [c]) == ValueOf(digits) * 10 + (c as int - 0x30)
    decreases |digits|
  {
    if digits == [] {
      assert [] + [c] == [c] && [c][1..] == [];
      assert TenTo(0) == 1;
    } else {
      assert (digits + [c])[1..] == digits[1..] + [c] && (digits + [c])[0] == digits[0];
      ValueSnoc(digits[1..], c);
      hide ValueOf, AllDigits;
      ValueHead(digits);
      ValueHead(digits + [c]);
      assert TenTo(|digits|) == TenTo(|digits| - 1) * 10;
      hide TenTo;
      Distribute(digits[0] as int - 0x30, TenTo(|digits| - 1), ValueOf(digits[1..]));
    }
  }

  lemma Distribute(a: int, t: int, b: int)
    ensures (a * t + b) * 10 == a * (t * 10) + b * 10
  {
  }

  lemma ValueHead(digits: bytes)
    requires AllDigits(digits) && digits != []
    ensures ValueOf(digits) == (digits[0] as int - 0x30) * TenTo(|digits| - 1) + ValueOf(digits[1..])
  {
  }

  lemma {:induction false} ValueIsDigitsValue(digits: bytes)
    requires AllDigits(digits)
    ensures DigitsValue(digits) == ValueOf(digits)
    decreases |digits|
  {
    if digits != [] {
      var last := |digits| - 1;
      ValueIsDigitsValue(digits[..last]);
      assert digits[..last] + [digits[last]] == digits;
      ValueSnoc(digits[..last], digits[last]);
    }
  }

  lemma {:induction false} TenToIsPow10(k: nat)
    ensures TenTo(k) == Pow10(k)
  {
    if k > 0 {
      TenToIsPow10(k - 1);
    }
  }

  lemma {:induction false} TenToAdd(j: nat, k: nat)
    ensures TenTo(j + k) == TenTo(j) * TenTo(k)
  {
    if j > 0 {
      TenToAdd(j - 1, k);
    }
  }

  /** Where a power of ten stands on either side, the smaller one cancels. */
  lemma ScaleIs(m: nat, up: nat, down: nat, x: real)
    ensures Amounts(x, m, up, down) <==> x == Scale(m, up - down)
  {
    if up >= down {
      ScaleUp(m, up, down, x);
    } else {
      ScaleDown(m, up, down, x);
    }
    hide *;
  }

  lemma AmountsMeans(x: real, m: nat, up: nat, down: nat)
    ensures Amounts(x, m, up, down) <==> x * TenTo(down) as real == (m * TenTo(up)) as real
  {
    hide TenTo;
  }

  lemma ScaleUp(m: nat, up: nat, down: nat, x: real)
    requires up >= down
    ensures Amounts(x, m, up, down) <==> x == Scale(m, up - down)
  {
    hide *;
    AmountsMeans(x, m, up, down);
    var e := up - down;
    var u, t, d := TenTo(up), TenTo(e), TenTo(down);
    assert u == t * d by { TenToAdd(e, down); }
    CancelUp(m, u, t, d, x);
    ScaledUp(m, e);
  }

  lemma ScaledUp(m: nat, e: nat)
    ensures Scale(m, e) == (m * TenTo(e)) as real
  {
    TenToIsPow10(e);
  }

  lemma ScaleDown(m: nat, up: nat, down: nat, x: real)
    requires up < down
    ensures Amounts(x, m, up, down) <==> x == Scale(m, up - down)
  {
    hide *;
    AmountsMeans(x, m, up, down);
    var e := down - up;
    var u, t, d := TenTo(up), TenTo(e), TenTo(down);
    assert d == t * u by { TenToAdd(e, up); }
    CancelDown(m, u, t, d, x);
    ScaledDown(m, e);
  }

  lemma ScaledDown(m: nat, e: nat)
    requires e > 0
    ensures Scale(m, -(e as int)) == m as real / TenTo(e) as real
  {
    TenToIsPow10(e);
  }

  lemma CancelUp(m: nat, u: nat, e: nat, d: nat, x: real)
    requires u == e * d && d > 0
    ensures x * d as real == (m * u) as real <==> x == (m * e) as real
  {
    Product(m, e, d);
    Cancel(x, d as real, (m * e) as real);
  }

  lemma CancelDown(m: nat, u: nat, e: nat, d: nat, x: real)
    requires d == e * u && e > 0 && u > 0
    ensures x * d as real == (m * u) as real <==> x == m as real / e as real
  {
    RealProduct(e, u);
    RealProduct(m, u);
    Regroup(x, e as real, u as real);
    Cancel(x * e as real, u as real, m as real);
    Quotient(x, e as real, m as real);
  }

  lemma RealProduct(a: nat, b: nat)
    ensures (a * b) as real == a as real * b as real
  {
  }

  lemma Product(m: nat, a: nat, b: nat)
    ensures (m * (a * b)) as real == (m * a) as real * b as real
  {
    assert m * (a * b) == m * a * b;
    RealProduct(m * a, b);
  }

  lemma Regroup(x: real, t: real, u: real)
    ensures x * (t * u) == x * t * u
  {
  }

  lemma Cancel(x: real, t: real, y: real)
    requires t > 0.0
    ensures x * t == y * t <==> x == y
  {
    assert x * t == y * t ==> (x - y) * t == 0.0;
  }

  lemma Quotient(x: real, t: real, y: real)
    requires t > 0.0
    ensures x * t == y <==> x == y / t
  {
    assert y / t * t == y;
    Cancel(x, t, y / t);
  }

  // ----- every numeral is read as the number it denotes -----

  /** What may stand behind a numeral without becoming part of it. */
  predicate Ends(c: byte) {
    !(Byte('0') <= c <= Byte('9')) && c != Byte('.') && c != Byte('e') && c != Byte('E') && c != Byte('x')
    && c != Byte('X')
  }

  lemma DigitsAt(s: bytes, p: nat, digits: bytes)
    requires At(s, p, digits) && AllDigits(digits) && !IsDigit(Peek(s, p + |digits|))
    ensures DigitsEnd(s, p) == p + |digits| && s[p..p + |digits|] == digits
  {
    forall i | p <= i < p + |digits|
      ensures IsDigit(s[i])
    {
      AtIndex(s, p, digits, i - p);
    }
    DigitsEndAt(s, p, p + |digits|);
  }

  lemma ThreePartsAt(s: bytes, p: nat, x: byte, b: bytes, c: bytes)
    requires At(s, p, [x] + b + c) && c != []
    ensures p + 1 + |b| + |c| <= |s| && s[p] == x && s[p + 1 + |b|] == c[0] && (b != [] ==> s[p + 1] == b[0])
    ensures At(s, p + 1 + |b|, c)
  {
    hide *;
    AtFits(s, p, [x] + b + c);
    AtConcat(s, p, [x] + b, c);
    AtConcat(s, p, [x], b);
    AtIndex(s, p, [x], 0);
    AtIndex(s, p + 1 + |b|, c, 0);
    if b != [] {
      AtIndex(s, p + 1, b, 0);
    }
  }

  lemma DigitsAreDigits(digits: bytes)
    requires AllDigits(digits)
    ensures forall i | 0 <= i < |digits| :: IsDigit(digits[i])
  {
  }

  lemma AtFits(s: bytes, p: nat, t: bytes)
    requires At(s, p, t)
    ensures p + |t| <= |s| && s[p..p + |t|] == t
  {
  }

  /** The reader on an exponent, whose first digit stands at `d`. */
  lemma ExponentAt(s: bytes, p: nat, d: nat, q: nat)
    requires p < d < q <= |s| && (s[p] == LOWER_E || s[p] == UPPER_E) && IsDigit(s[d]) && DigitsEnd(s, d) == q
    requires d == if s[p + 1] == MINUS || s[p + 1] == PLUS then p + 2 else p + 1
    ensures ExponentEnd(s, p) == q
    ensures ExponentValue(s, p) == if s[p + 1] == MINUS then 0 - DigitsValue(s[d..q]) as int else DigitsValue(s[d..q])
  {
    hide DigitsEnd, DigitsValue;
  }

  lemma ExponentTextIs(e: Exponent)
    requires e.Legal()
    ensures ExponentText(Some(e)) == [e.letter] + e.sign + e.digits && e.digits != [] && AllDigits(e.digits)
    ensures |ExponentText(Some(e))| == 1 + |e.sign| + |e.digits|
    ensures Signed(Some(e)) == if e.sign == [MINUS] then 0 - ValueOf(e.digits) as int else ValueOf(e.digits)
    ensures e.letter == LOWER_E || e.letter == UPPER_E
    ensures e.sign == [] || e.sign == [MINUS] || e.sign == [PLUS]
  {
    hide ValueOf;
  }

  lemma NoExponentAt(s: bytes, p: nat)
    requires p <= |s| && Ends(Peek(s, p))
    ensures ExponentEnd(s, p) == p && ExponentValue(s, p) == 0 && Signed(None) == 0
  {
    hide DigitsEnd, DigitsValue;
  }

  lemma EndsDigits(c: byte)
    requires Ends(c)
    ensures !IsDigit(c)
  {
  }

  lemma DigitIsNoSign(s: bytes, d: nat)
    requires d < |s| && IsDigit(s[d])
    ensures s[d] != MINUS && s[d] != PLUS
  {
  }

  lemma ExponentIsRead(s: bytes, p: nat, exponent: Option<Exponent>)
    requires At(s, p, ExponentText(exponent)) && Ends(Peek(s, p + |ExponentText(exponent)|))
    requires exponent.Some? ==> exponent.value.Legal()
    ensures ExponentEnd(s, p) == p + |ExponentText(exponent)|
    ensures ExponentValue(s, p) == Signed(exponent)
  {
    AtFits(s, p, ExponentText(exponent));
    assert exponent.None? ==> ExponentText(exponent) == [];
    hide *;
    if exponent.None? {
      NoExponentAt(s, p);
    } else {
      var e := exponent.value;
      ExponentTextIs(e);
      ThreePartsAt(s, p, e.letter, e.sign, e.digits);
      DigitsAreDigits(e.digits);
      var d := p + 1 + |e.sign|;
      var q := d + |e.digits|;
      EndsDigits(Peek(s, q));
      DigitsAt(s, d, e.digits);
      DigitIsNoSign(s, d);
      ExponentAt(s, p, d, q);
      ValueIsDigitsValue(e.digits);
    }
  }

  lemma UnsignedIs(n: Numeral)
    ensures n.Unsigned() == n.whole + (PointText(n.point, n.fraction) + ExponentText(n.exponent))
  {
  }

  /** The three parts of a numeral without its sign, where the reader finds them. */
  lemma PartsAt(s: bytes, p: nat, n: Numeral)
    requires At(s, p, n.Unsigned())
    ensures var i := p + |n.whole|;
            var f := i + |PointText(n.point, n.fraction)|;
            && At(s, p, n.whole) && At(s, i, PointText(n.point, n.fraction)) && At(s, f, ExponentText(n.exponent))
            && f + |ExponentText(n.exponent)| == p + |n.Unsigned()| <= |s|
  {
    UnsignedIs(n);
    hide *;
    AtFits(s, p, n.Unsigned());
    AtConcat(s, p, n.whole, PointText(n.point, n.fraction) + ExponentText(n.exponent));
    AtConcat(s, p + |n.whole|, PointText(n.point, n.fraction), ExponentText(n.exponent));
  }

  lemma ExponentStart(s: bytes, f: nat, exponent: Option<Exponent>)
    requires At(s, f, ExponentText(exponent)) && Ends(Peek(s, f + |ExponentText(exponent)|))
    requires exponent.Some? ==> exponent.value.Legal()
    ensures !IsDigit(Peek(s, f)) && Peek(s, f) != DOT
    ensures Peek(s, f) != LOWER_X && Peek(s, f) != UPPER_X
  {
    if exponent.Some? {
      AtIndex(s, f, exponent.value.Text(), 0);
    }
  }

  /** Where the digits behind the point end. */
  lemma FractionIsFound(s: bytes, i: nat, point: bool, fraction: bytes)
    requires At(s, i, PointText(point, fraction)) && AllDigits(fraction)
    requires var c := Peek(s, i + |PointText(point, fraction)|); !IsDigit(c) && c != DOT
    ensures Peek(s, i) == DOT <==> point
    ensures point ==> DigitsEnd(s, i + 1) == i + 1 + |fraction| && s[i + 1..i + 1 + |fraction|] == fraction
  {
    hide *;
    AtFits(s, i, PointText(point, fraction));
    PointTextIs(point, fraction);
    if point {
      AtConcat(s, i, [DOT], fraction);
      AtIndex(s, i, [DOT], 0);
      DigitsAt(s, i + 1, fraction);
      PeekIs(s, i);
    }
  }

  lemma PointTextIs(point: bool, fraction: bytes)
    ensures PointText(point, fraction) == if point then [DOT] + fraction else []
  {
  }

  lemma PeekIs(s: bytes, i: nat)
    requires i < |s|
    ensures Peek(s, i) == s[i]
  {
  }

  /** Where the digits in front of the point and behind it end. */
  lemma DigitsAreFound(s: bytes, p: nat, n: Numeral)
    requires n.Formed() && At(s, p, n.Unsigned()) && Ends(Peek(s, p + |n.Unsigned()|))
    ensures var i := p + |n.whole|;
            && DigitsEnd(s, p) == i && s[p..i] == n.whole
            && (Peek(s, i) == DOT <==> n.point)
            && (n.point ==> DigitsEnd(s, i + 1) == i + 1 + |n.fraction| && s[i + 1..i + 1 + |n.fraction|] == n.fraction)
            && (!n.point ==> Peek(s, i) != LOWER_X && Peek(s, i) != UPPER_X)
  {
    hide ExponentText, At, DigitsEnd, AllDigits;
    PartsAt(s, p, n);
    var i := p + |n.whole|;
    ExponentStart(s, i + |PointText(n.point, n.fraction)|, n.exponent);
    FractionIsFound(s, i, n.point, n.fraction);
    DigitsAt(s, p, n.whole);
  }

  lemma DecimalIs(s: bytes, p: nat, i: nat, f: nat, fraction: bytes)
    requires p <= i <= f <= |s| && i == DigitsEnd(s, p)
    requires f == if Peek(s, i) == DOT then DigitsEnd(s, i + 1) else i
    requires fraction == if f > i then s[i + 1..f] else []
    requires s[p..i] + fraction != []
    ensures (forall k | 0 <= k < |s[p..i] + fraction| :: IsDigit((s[p..i] + fraction)[k]))
    ensures Decimal(s, p)
         == Some((Scale(DigitsValue(s[p..i] + fraction), ExponentValue(s, f) - |fraction|), ExponentEnd(s, f)))
  {
    hide Scale, DigitsValue, ExponentValue, ExponentEnd, DigitsEnd;
  }

  lemma FormedParts(n: Numeral)
    requires n.Formed()
    ensures AllDigits(n.whole) && AllDigits(n.fraction) && (!n.point ==> n.fraction == [])
    ensures n.exponent.Some? ==> n.exponent.value.Legal()
    ensures n.Up() - n.Down() == Signed(n.exponent) - |n.fraction|
  {
    hide AllDigits, Signed, Exponent.Legal;
  }

  lemma PointLength(point: bool, fraction: bytes)
    requires !point ==> fraction == []
    ensures |PointText(point, fraction)| == if point then 1 + |fraction| else 0
  {
  }

  lemma UnsignedIsRead(s: bytes, p: nat, n: Numeral)
    requires n.Formed() && n.whole + n.fraction != []
    requires At(s, p, n.Unsigned()) && Ends(Peek(s, p + |n.Unsigned()|))
    ensures Decimal(s, p)
         == Some((Scale(ValueOf(n.whole + n.fraction), n.Up() - n.Down()), p + |n.Unsigned()|))
  {
    hide *;
    FormedParts(n);
    PointLength(n.point, n.fraction);
    PartsAt(s, p, n);
    DigitsAreFound(s, p, n);
    var i := p + |n.whole|;
    var f := i + |PointText(n.point, n.fraction)|;
    ExponentIsRead(s, f, n.exponent);
    DecimalIs(s, p, i, f, n.fraction);
    AllDigitsConcat(n.whole, n.fraction);
    ValueIsDigitsValue(n.whole + n.fraction);
  }

  predicate XFree(t: bytes) {
    forall i | 0 <= i < |t| :: t[i] != LOWER_X && t[i] != UPPER_X
  }

  lemma XFreeConcat(a: bytes, b: bytes)
    requires XFree(a) && XFree(b)
    ensures XFree(a + b)
  {
  }

  lemma UnsignedIsXFree(n: Numeral)
    requires n.Formed()
    ensures XFree(n.Unsigned())
  {
    assert XFree(PointText(n.point, n.fraction));
    if n.exponent.Some? {
      var e := n.exponent.value;
      assert XFree([e.letter]) && XFree(e.sign) && XFree(e.digits);
      hide XFree;
      XFreeConcat([e.letter], e.sign);
      XFreeConcat([e.letter] + e.sign, e.digits);
    }
    assert XFree(ExponentText(n.exponent));
    assert XFree(n.whole);
    hide XFree;
    XFreeConcat(PointText(n.point, n.fraction), ExponentText(n.exponent));
    XFreeConcat(n.whole, PointText(n.point, n.fraction) + ExponentText(n.exponent));
  }

  lemma ZeroStandsAlone(n: Numeral)
    requires n.Taken()
    ensures var u := n.Unsigned();
            u != [] && (u[0] == ZERO && |u| > 1 ==> u[1] == DOT) && (u[0] != DOT ==> u[0] == n.whole[0])
  {
    var tail := PointText(n.point, n.fraction) + ExponentText(n.exponent);
    assert n.Unsigned() == n.whole + tail;
    if n.whole == [] {
      assert n.Unsigned() == tail && n.point;
    } else if n.point {
      assert tail[0] == DOT;
    }
  }

  /** A sign in front, no second digit behind a leading zero, and no `x`: the test behind `strtod` passes. */
  lemma NumeralHasDecimalForm(n: Numeral)
    requires n.Taken()
    ensures DecimalForm(n.Text())
  {
    var u := n.Unsigned();
    UnsignedIsXFree(n);
    ZeroStandsAlone(n);
    hide n.Unsigned;
    if n.minus {
      assert n.Text() == [MINUS] + u;
    } else {
      assert n.Text() == u;
    }
  }

  lemma NumeralIsNoWord(s: bytes, p: nat, n: Numeral)
    requires n.Formed() && n.whole + n.fraction != [] && At(s, p, n.Unsigned()) && Ends(Peek(s, p + |n.Unsigned()|))
    ensures !HexLiteral(s, p) && !InfOrNan(s, p) && (n.whole != [] ==> IsDigit(Peek(s, p)))
  {
    DigitsAreFound(s, p, n);
    PartsAt(s, p, n);
    if n.whole != [] {
      AtIndex(s, p, n.whole, 0);
      assert n.whole[0] == ZERO ==> |n.whole| == 1;
    }
  }

  lemma SignAt(s: bytes, p: nat, n: Numeral)
    requires At(s, p, n.Text())
    ensures n.minus ==> p < |s| && s[p] == MINUS && At(s, p + 1, n.Unsigned()) && |n.Text()| == |n.Unsigned()| + 1
    ensures !n.minus ==> n.Text() == n.Unsigned()
  {
    SignInFront(n);
    if n.minus {
      AtConcat(s, p, [MINUS], n.Unsigned());
      AtIndex(s, p, [MINUS], 0);
    }
  }

  lemma SignedIsRead(s: bytes, p: nat, n: Numeral)
    requires n.Formed() && n.whole + n.fraction != [] && At(s, p, n.Text()) && (n.whole == [] ==> n.minus)
    requires Ends(Peek(s, p + |n.Text()|))
    ensures var x := Scale(ValueOf(n.whole + n.fraction), n.Up() - n.Down());
            StrToD(s, p) == DecimalValue(if n.minus then -x else x, p + |n.Text()|)
  {
    hide Decimal, HexLiteral, InfOrNan, Scale, ValueOf, At, Numeral.Text, Numeral.Unsigned, Numeral.Up, Numeral.Down;
    SignAt(s, p, n);
    var q := if n.minus then p + 1 else p;
    NumeralIsNoWord(s, q, n);
    UnsignedIsRead(s, q, n);
  }

  lemma DenotesScaled(n: Numeral, x: real)
    requires n.Formed()
    ensures n.Denotes(x) <==> (if n.minus then -x else x) == Scale(ValueOf(n.whole + n.fraction), n.Up() - n.Down())
  {
    hide Scale, ValueOf, Amounts;
    ScaleIs(ValueOf(n.whole + n.fraction), n.Up(), n.Down(), if n.minus then -x else x);
  }

  /** Every numeral the reader takes, wherever it stands, is read as the number that it denotes, to its end. */
  lemma NumeralIsRead(s: bytes, p: nat, n: Numeral, x: real)
    requires n.Taken() && n.Denotes(x)
    requires At(s, p, n.Text()) && Ends(Peek(s, p + |n.Text()|))
    ensures ParseNumber(s, p) == Some((x, p + |n.Text()|))
  {
    hide StrToD, DecimalForm, Scale, ValueOf, Numeral.Denotes, Numeral.Text, Numeral.Up, Numeral.Down, At;
    NumeralHasDecimalForm(n);
    SignedIsRead(s, p, n);
    DenotesScaled(n, x);
    AtFits(s, p, n.Text());
  }

  /** A numeral of RFC 8259 is refused only where a lone zero has an exponent directly behind it. */
  lemma LegalIsReadIff(s: bytes, p: nat, n: Numeral)
    requires n.Legal() && At(s, p, n.Text()) && Ends(Peek(s, p + |n.Text()|))
    ensures ParseNumber(s, p).Some? <==> !n.ZeroWithExponent()
  {
    hide *;
    LegalMeans(n);
    SignedIsRead(s, p, n);
    AtFits(s, p, n.Text());
    FormDecides(s, p);
    if n.ZeroWithExponent() {
      ZeroWithExponentFails(n);
    } else {
      NumeralHasDecimalForm(n);
    }
  }

  lemma LegalMeans(n: Numeral)
    requires n.Legal()
    ensures n.Formed() && n.whole != [] && n.whole + n.fraction != [] && (n.ZeroWithExponent() || n.Taken())
  {
  }

  lemma FormDecides(s: bytes, p: nat)
    requires p <= |s| && StrToD(s, p).DecimalValue?
    ensures ParseNumber(s, p).Some? <==> DecimalForm(s[p..StrToD(s, p).end])
  {
    hide StrToD, DecimalForm;
  }

  lemma ZeroWithExponentFails(n: Numeral)
    requires n.Formed() && n.ZeroWithExponent()
    ensures !DecimalForm(n.Text())
  {
    var u, e := n.Unsigned(), n.exponent.value;
    SignInFront(n);
    UnsignedIs(n);
    ExponentTextIs(e);
    hide Numeral.Text, Numeral.Unsigned, ExponentText, Exponent.Text, AllDigits;
    assert PointText(false, n.fraction) == [];
    ZeroAndLetter(u, e);
  }

  lemma ZeroAndLetter(u: bytes, e: Exponent)
    requires u == [ZERO] + ([] + ([e.letter] + e.sign + e.digits))
    ensures |u| > 1 && u[0] == ZERO && u[1] == e.letter
  {
  }

  // ----- and nothing else is read as a number -----

  /** Where the digits of the exponent at `f` start. */
  function ExponentDigits(s: bytes, f: nat): (d: nat)
    requires f < |s|
    ensures f < d <= |s|
  {
    if Peek(s, f + 1) == MINUS || Peek(s, f + 1) == PLUS then f + 2 else f + 1
  }

  /** The exponent that the reader found at `f`. */
  ghost function ExponentFound(s: bytes, f: nat): Option<Exponent>
    requires f <= |s|
  {
    var e := ExponentEnd(s, f);
    if e == f || ExponentDigits(s, f) > e then None
    else Some(Exponent(s[f], s[f + 1..ExponentDigits(s, f)], s[ExponentDigits(s, f)..e]))
  }

  lemma ExponentShape(s: bytes, f: nat)
    requires f <= |s| && ExponentEnd(s, f) != f
    ensures var d, e := ExponentDigits(s, f), ExponentEnd(s, f);
            && f < d < e <= |s| && (s[f] == LOWER_E || s[f] == UPPER_E) && DigitsEnd(s, d) == e
            && ExponentValue(s, f)
               == if s[f + 1] == MINUS then 0 - DigitsValue(s[d..e]) as int else DigitsValue(s[d..e])
  {
    hide DigitsValue;
    var d := ExponentDigits(s, f);
    assert IsDigit(Peek(s, d)) && DigitsEnd(s, d) > d;
  }

  lemma SliceThree(s: bytes, a: nat, b: nat, c: nat)
    requires a < b <= c <= |s|
    ensures [s[a]] + s[a + 1..b] + s[b..c] == s[a..c]
  {
  }

  lemma DigitsFound(s: bytes, p: nat)
    requires p <= |s|
    ensures AllDigits(s[p..DigitsEnd(s, p)])
  {
  }

  lemma ExponentIsFound(s: bytes, f: nat)
    requires f <= |s|
    ensures var e := ExponentFound(s, f);
            && ExponentText(e) == s[f..ExponentEnd(s, f)]
            && (e.Some? ==> e.value.Legal())
            && ExponentValue(s, f) == Signed(e)
  {
    if ExponentEnd(s, f) != f {
      ExponentShape(s, f);
      var d, e := ExponentDigits(s, f), ExponentEnd(s, f);
      SliceThree(s, f, d, e);
      DigitsFound(s, d);
      hide DigitsEnd, DigitsValue, ValueOf, ExponentEnd, ExponentValue, AllDigits;
      ValueIsDigitsValue(s[d..e]);
      assert d == f + 1 ==> s[f + 1..d] == [];
      assert d == f + 2 ==> s[f + 1..d] == [s[f + 1]];
    }
  }

  /** The numeral that the reader found at `q`. */
  ghost function NumeralFound(s: bytes, q: nat, minus: bool): Numeral
    requires q <= |s|
  {
    var i := DigitsEnd(s, q);
    var point := Peek(s, i) == DOT;
    var f := if point then DigitsEnd(s, i + 1) else i;
    Numeral(minus, s[q..i], point, if point then s[i + 1..f] else [], ExponentFound(s, f))
  }

  lemma DecimalEnds(s: bytes, q: nat, i: nat, f: nat)
    requires q <= i <= f <= |s| && i == DigitsEnd(s, q)
    requires f == if Peek(s, i) == DOT then DigitsEnd(s, i + 1) else i
    requires Decimal(s, q).Some?
    ensures s[q..i] + (if f > i then s[i + 1..f] else []) != []
    ensures Decimal(s, q).value.1 == ExponentEnd(s, f)
  {
    hide Scale, DigitsValue, ExponentValue, ExponentEnd, DigitsEnd;
  }

  lemma SlicePoint(s: bytes, i: nat, f: nat, point: bool)
    requires i <= f <= |s| && (if point then i < f && s[i] == DOT else i == f)
    ensures PointText(point, if point then s[i + 1..f] else []) == s[i..f]
  {
  }

  lemma SliceParts(s: bytes, a: nat, b: nat, c: nat, d: nat)
    requires a <= b <= c <= d <= |s|
    ensures s[a..b] + (s[b..c] + s[c..d]) == s[a..d]
  {
  }

  /** Its parts, whatever the sign and the leading zeros. */
  ghost predicate Found(n: Numeral, t: bytes) {
    && AllDigits(n.whole) && AllDigits(n.fraction) && (!n.point ==> n.fraction == [])
    && (n.exponent.Some? ==> n.exponent.value.Legal()) && n.whole + n.fraction != [] && n.Unsigned() == t
  }

  /** The positions the parts of the numeral at `q` lie between. */
  ghost predicate Stops(s: bytes, q: nat, n: Numeral, i: nat, f: nat) {
    && q <= i <= f <= |s| && i == DigitsEnd(s, q) && n.point == (Peek(s, i) == DOT)
    && f == (if n.point then DigitsEnd(s, i + 1) else i)
    && n.whole == s[q..i] && n.fraction == (if f > i then s[i + 1..f] else []) && n.exponent == ExponentFound(s, f)
  }

  lemma StopsFound(s: bytes, q: nat, minus: bool) returns (i: nat, f: nat)
    requires q <= |s|
    ensures Stops(s, q, NumeralFound(s, q, minus), i, f)
  {
    i := DigitsEnd(s, q);
    f := if Peek(s, i) == DOT then DigitsEnd(s, i + 1) else i;
  }

  lemma TextFound(s: bytes, q: nat, n: Numeral, i: nat, f: nat)
    requires Stops(s, q, n, i, f)
    ensures n.Unsigned() == s[q..ExponentEnd(s, f)]
  {
    hide ExponentFound, ExponentText, ExponentEnd, DigitsEnd, PointText;
    ExponentIsFound(s, f);
    SlicePoint(s, i, f, n.point);
    SliceParts(s, q, i, f, ExponentEnd(s, f));
  }

  lemma PartsFound(s: bytes, q: nat, minus: bool)
    requires q <= |s| && Decimal(s, q).Some?
    ensures Found(NumeralFound(s, q, minus), s[q..Decimal(s, q).value.1])
  {
    var n := NumeralFound(s, q, minus);
    hide Decimal, NumeralFound, ExponentFound, ExponentText, ExponentEnd, ExponentValue, DigitsEnd, AllDigits,
         PointText, Numeral.Unsigned;
    var i, f := StopsFound(s, q, minus);
    DigitsFound(s, q);
    if n.point {
      DigitsFound(s, i + 1);
    } else {
      NoDigits();
    }
    DecimalEnds(s, q, i, f);
    ExponentIsFound(s, f);
    TextFound(s, q, n, i, f);
  }

  lemma NoDigits()
    ensures AllDigits([])
  {
  }

  lemma ValueFound(s: bytes, q: nat, minus: bool)
    requires q <= |s| && Decimal(s, q).Some? && NumeralFound(s, q, minus).Formed()
    ensures var n := NumeralFound(s, q, minus);
            Decimal(s, q).value.0 == Scale(ValueOf(n.whole + n.fraction), n.Up() - n.Down())
  {
    var n := NumeralFound(s, q, minus);
    hide NumeralFound, Decimal, ExponentFound, ExponentText, ExponentEnd, ExponentValue, DigitsEnd, Scale, ValueOf,
         DigitsValue, Signed, AllDigits;
    var i, f := StopsFound(s, q, minus);
    DecimalEnds(s, q, i, f);
    ExponentIsFound(s, f);
    DecimalIs(s, q, i, f, n.fraction);
    AllDigitsConcat(n.whole, n.fraction);
    ValueIsDigitsValue(n.whole + n.fraction);
    assert n.Up() - n.Down() == ExponentValue(s, f) - |n.fraction|;
  }

  lemma AllDigitsConcat(a: bytes, b: bytes)
    requires AllDigits(a) && AllDigits(b)
    ensures AllDigits(a + b)
  {
  }

  lemma SecondByte(n: Numeral, t: bytes)
    requires Found(n, t) && n.whole != []
    ensures t[0] == n.whole[0]
    ensures |n.whole| > 1 ==> |t| > 1 && t[1] == n.whole[1] && IsDigit(t[1])
    ensures |n.whole| == 1 && !n.point && n.exponent.Some? ==> |t| > 1 && t[1] == n.exponent.value.letter
  {
    assert t == n.whole + (PointText(n.point, n.fraction) + ExponentText(n.exponent));
  }

  /** What the test behind `strtod` leaves is a numeral that the reader takes. */
  lemma FoundIsTaken(n: Numeral, t: bytes)
    requires Found(n, t) && DecimalForm(n.Text()) && (n.whole == [] ==> n.minus)
    ensures n.Taken()
  {
    SignInFront(n);
    if n.whole != [] {
      SecondByte(n, t);
      hide Numeral.Text;
      assert t[0] == ZERO && |t| > 1 ==> t[1] == DOT;
    }
  }

  lemma SignInFront(n: Numeral)
    ensures n.Text() == if n.minus then [MINUS] + n.Unsigned() else n.Unsigned()
  {
    assert [] + n.Unsigned() == n.Unsigned();
  }

  /** Where a number is read, `strtod` found digits, and the test behind it passed. */
  lemma DecimalWasRead(s: bytes, p: nat, q: nat)
    requires p < |s| && (s[p] == MINUS || IsDigit(s[p])) && q == if s[p] == MINUS then p + 1 else p
    requires ParseNumber(s, p).Some? && ParseNumber(s, p).value.1 > p
    ensures Decimal(s, q).Some?
    ensures var (x, e) := Decimal(s, q).value;
            ParseNumber(s, p) == Some((if s[p] == MINUS then -x else x, e)) && q <= e && DecimalForm(s[p..e])
  {
    hide Decimal, HexLiteral, InfOrNan, DecimalForm;
  }

  lemma SliceSign(s: bytes, p: nat, q: nat, e: nat)
    requires p < |s| && q == (if s[p] == MINUS then p + 1 else p) && q <= e <= |s|
    ensures s[p..e] == if s[p] == MINUS then [MINUS] + s[q..e] else s[q..e]
  {
  }

  lemma NumeralTaken(s: bytes, p: nat, q: nat, e: nat)
    requires p < |s| && (s[p] == MINUS || IsDigit(s[p])) && q == (if s[p] == MINUS then p + 1 else p)
    requires Decimal(s, q).Some? && Decimal(s, q).value.1 == e && q <= e && DecimalForm(s[p..e])
    ensures var n := NumeralFound(s, q, s[p] == MINUS);
            n.Taken() && n.Text() == s[p..e]
  {
    var n := NumeralFound(s, q, s[p] == MINUS);
    hide Decimal, DecimalForm, NumeralFound;
    FoundHead(s, q, s[p] == MINUS);
    PartsFound(s, q, s[p] == MINUS);
    SignInFront(n);
    hide Numeral.Text, Numeral.Taken;
    SliceSign(s, p, q, e);
    FoundIsTaken(n, s[q..e]);
  }

  /** What is read as a number, unless nothing is consumed, is a numeral that denotes it. */
  lemma ReadIsNumeral(s: bytes, p: nat) returns (n: Numeral)
    requires p < |s| && (s[p] == MINUS || IsDigit(s[p]))
    requires ParseNumber(s, p).Some? && ParseNumber(s, p).value.1 > p
    ensures n.Taken() && n.Denotes(ParseNumber(s, p).value.0) && n.Text() == s[p..ParseNumber(s, p).value.1]
  {
    hide ParseNumber, Decimal, DecimalForm, Scale, ValueOf, NumeralFound, Numeral.Denotes, Numeral.Text;
    var q := if s[p] == MINUS then p + 1 else p;
    n := NumeralFound(s, q, s[p] == MINUS);
    FoundHead(s, q, s[p] == MINUS);
    DecimalWasRead(s, p, q);
    NumeralTaken(s, p, q, Decimal(s, q).value.1);
    ValueFound(s, q, s[p] == MINUS);
    DenotesScaled(n, ParseNumber(s, p).value.0);
  }

  lemma FoundHead(s: bytes, q: nat, minus: bool)
    requires q <= |s|
    ensures NumeralFound(s, q, minus).minus == minus
    ensures IsDigit(Peek(s, q)) ==> NumeralFound(s, q, minus).whole != []
  {
  }

  // ----- what looks like a number and is none -----

  /** The letters of a word in either case. */
  predicate InAnyCase(t: bytes, word: bytes) {
    |t| == |word| && forall i | 0 <= i < |t| :: t[i] == word[i] || t[i] as int + 32 == word[i] as int
  }

  predicate Hexadecimal(c: byte) {
    Byte('0') <= c <= Byte('9') || Byte('a') <= c <= Byte('f') || Byte('A') <= c <= Byte('F')
  }

  /**
   Behind `0x`, with a minus in front or not: a hexadecimal digit, or a point and such a
   digit, makes the literal refused; otherwise it is the zero in front of the letter.
   */
  lemma HexadecimalIsRefused(s: bytes, p: nat, q: nat)
    requires p < |s| && q == (if s[p] == Byte('-') then p + 1 else p) && q + 1 < |s|
    requires s[q] == Byte('0') && (s[q + 1] == Byte('x') || s[q + 1] == Byte('X'))
    ensures var hex := q + 2 < |s| && (Hexadecimal(s[q + 2])
                                       || (s[q + 2] == Byte('.') && q + 3 < |s| && Hexadecimal(s[q + 3])));
            ParseNumber(s, p) == if hex then None else Some((0.0, q + 1))
  {
    var hex := q + 2 < |s| && (Hexadecimal(s[q + 2])
                               || (s[q + 2] == Byte('.') && q + 3 < |s| && Hexadecimal(s[q + 3])));
    assert HexLiteral(s, q) <==> hex;
    if !hex {
      ZeroIsRead(s, q);
      assert s[p..q + 1] == if p == q then [ZERO] else [MINUS, ZERO];
    }
    hide Decimal, HexLiteral;
  }

  lemma ZeroIsRead(s: bytes, q: nat)
    requires q + 1 < |s| && s[q] == ZERO && (s[q + 1] == LOWER_X || s[q + 1] == UPPER_X)
    ensures Decimal(s, q) == Some((0.0, q + 1))
  {
    DigitsEndAt(s, q, q + 1);
    assert s[q..q + 1] + [] == [ZERO] && [ZERO][..0] == [];
    assert DigitsValue([ZERO]) == 0;
  }

  lemma WordAt(s: bytes, p: nat, t: bytes, word: bytes)
    requires At(s, p, [Byte('-')] + t) && InAnyCase(t, word)
    ensures p + 1 + |t| <= |s| && s[p] == Byte('-')
    ensures forall i | 0 <= i < |t| :: s[p + 1 + i] == t[i] && Letter(s[p + 1 + i], word[i])
  {
    AtConcat(s, p, [Byte('-')], t);
    AtIndex(s, p, [Byte('-')], 0);
    forall i | 0 <= i < |t|
      ensures s[p + 1 + i] == t[i]
    {
      AtIndex(s, p + 1, t, i);
    }
  }

  /** An infinity is refused, and `strtod` has consumed three letters of it, or eight. */
  lemma InfinityIsRefused(s: bytes, p: nat, t: bytes)
    requires At(s, p, [Byte('-')] + t) && (InAnyCase(t, Ascii("inf")) || InAnyCase(t, Ascii("infinity")))
    ensures p <= |s| && ParseNumber(s, p) == None
    ensures |t| == 8 ==> StrToD(s, p).end == p + 9
    ensures |t| == 3 && (p + 4 == |s| || (s[p + 4] != Byte('i') && s[p + 4] != Byte('I'))) ==> StrToD(s, p).end == p + 4
  {
    hide Decimal;
    WordAt(s, p, t, if |t| == 3 then Ascii("inf") else Ascii("infinity"));
    assert Letter(s[p + 1], 0x69) && Letter(s[p + 2], 0x6E) && Letter(s[p + 3], 0x66);
    if |t| == 8 {
      assert Letter(s[p + 4], 0x69) && Letter(s[p + 5], 0x6E) && Letter(s[p + 6], 0x69);
      assert Letter(s[p + 7], 0x74) && Letter(s[p + 8], 0x79);
    }
  }

  /** Letters, digits and underscores. */
  predicate Wordlike(t: bytes) {
    forall i | 0 <= i < |t| ::
      || Byte('0') <= t[i] <= Byte('9') || Byte('A') <= t[i] <= Byte('Z') || Byte('a') <= t[i] <= Byte('z')
      || t[i] == Byte('_')
  }

  lemma {:induction false} WordlikeEnds(s: bytes, p: nat, t: bytes)
    requires At(s, p, t + [Byte(')')]) && Wordlike(t)
    ensures p + |t| < |s| && s[p + |t|] == Byte(')') && AlphanumericEnd(s, p) == p + |t|
    decreases |t|
  {
    AtIndex(s, p, t + [Byte(')')], 0);
    AtFits(s, p, t + [Byte(')')]);
    if t != [] {
      assert t + [Byte(')')] == [t[0]] + (t[1..] + [Byte(')')]);
      AtConcat(s, p, [t[0]], t[1..] + [Byte(')')]);
      WordlikeEnds(s, p + 1, t[1..]);
    }
  }

  /** The same for what is not a number, with characters in parentheses behind it. */
  lemma NotANumberIsRefused(s: bytes, p: nat, t: bytes, inside: bytes)
    requires At(s, p, [Byte('-')] + t + ([Byte('(')] + (inside + [Byte(')')])))
    requires InAnyCase(t, Ascii("nan")) && Wordlike(inside)
    ensures p <= |s| && ParseNumber(s, p) == None && StrToD(s, p).end == p + 4 + |inside| + 2
  {
    hide Decimal;
    AtConcat(s, p, [Byte('-')] + t, [Byte('(')] + (inside + [Byte(')')]));
    WordAt(s, p, t, Ascii("nan"));
    assert Letter(s[p + 1], 0x6E) && Letter(s[p + 2], 0x61) && Letter(s[p + 3], 0x6E);
    AtConcat(s, p + 4, [Byte('(')], inside + [Byte(')')]);
    AtIndex(s, p + 4, [Byte('(')], 0);
    WordlikeEnds(s, p + 5, inside);
    assert s[p + 4] == Byte('(');
  }
}
