/**
 JSON numbers: the decimal text `%1.17g` gives an integral value below 10^17, and the
 literals `strtod` followed by `is_decimal` accepts, with their exact values.
 */
module JsonNumber {
  import opened CString

  // ----- writing -----

  const LIMIT: int := 100_000_000_000_000_000

  /** Integral and below 10^17: the values `%1.17g` writes with neither point nor exponent. */
  predicate Printable(x: real) {
    x.Floor as real == x && -LIMIT < x.Floor < LIMIT
  }

  function PrintNat(n: nat): (r: bytes)
    ensures r != []
    ensures forall i | 0 <= i < |r| :: IsDigit(r[i])
    ensures r[0] == ZERO ==> n == 0 && r == [ZERO]
  {
    if n < 10 then [ZERO + n] else PrintNat(n / 10) + [ZERO + n % 10]
  }

  function PrintInt(n: int): (r: bytes)
    ensures r != []
  {
    if n < 0 then [MINUS] + PrintNat(-n) else PrintNat(n)
  }

  function PrintNumber(x: real): (r: bytes)
    requires Printable(x)
    ensures r != [] && (r[0] == MINUS || IsDigit(r[0]))
  {
    PrintInt(x.Floor)
  }

  /** The text fits the 64-byte scratch buffer of the size pass. */
  lemma PrintedNumberIsShort(x: real)
    requires Printable(x)
    ensures |PrintNumber(x)| <= 18
  {
    assert LIMIT == Pow10(17) by {
      assert Pow10(5) == 100_000;
      assert Pow10(10) == 10_000_000_000;
      assert Pow10(15) == 1_000_000_000_000_000;
    }
    PrintedNatIsShort(if x.Floor < 0 then -x.Floor else x.Floor, 17, LIMIT);
  }

  lemma {:induction false} PrintedNatIsShort(n: nat, digits: nat, limit: nat)
    requires 1 <= digits && limit == Pow10(digits) && n < limit
    ensures |PrintNat(n)| <= digits
  {
    if n >= 10 {
      PrintedNatIsShort(n / 10, digits - 1, Pow10(digits - 1));
    }
  }

  function Pow10(e: nat): (r: nat)
    ensures r > 0
  {
    if e == 0 then 1 else 10 * Pow10(e - 1)
  }

  // ----- reading -----

  /** The end of the run of digits at `p`. */
  function DigitsEnd(s: bytes, p: nat): (q: nat)
    requires p <= |s|
    ensures p <= q <= |s|
    ensures forall i | p <= i < q :: IsDigit(s[i])
    ensures !IsDigit(Peek(s, q))
    decreases |s| - p
  {
    if IsDigit(Peek(s, p)) then DigitsEnd(s, p + 1) else p
  }

  function DigitValue(c: byte): nat
    requires IsDigit(c)
  {
    c as int - 0x30
  }

  function DigitsValue(s: bytes): nat
    requires forall i | 0 <= i < |s| :: IsDigit(s[i])
  {
    if s == [] then 0 else DigitsValue(s[..|s| - 1]) * 10 + DigitValue(s[|s| - 1])
  }

  const LOWER_E: byte := 0x65
  const UPPER_E: byte := 0x45
  const LOWER_X: byte := 0x78
  const UPPER_X: byte := 0x58
  const PLUS: byte := 0x2B
  const LPAREN: byte := 0x28
  const RPAREN: byte := 0x29

  predicate IsHexDigit(c: byte) {
    IsDigit(c) || 0x61 <= c <= 0x66 || 0x41 <= c <= 0x46
  }

  /** The end of the exponent at `p`; `p` itself when no digit follows the `e`. */
  function ExponentEnd(s: bytes, p: nat): (q: nat)
    requires p <= |s|
    ensures p <= q <= |s|
  {
    if Peek(s, p) != LOWER_E && Peek(s, p) != UPPER_E then p
    else
      var d := if Peek(s, p + 1) == MINUS || Peek(s, p + 1) == PLUS then p + 2 else p + 1;
      if IsDigit(Peek(s, d)) then DigitsEnd(s, d) else p
  }

  function ExponentValue(s: bytes, p: nat): int
    requires p <= |s|
  {
    if ExponentEnd(s, p) == p then 0
    else if Peek(s, p + 1) == MINUS then 0 - DigitsValue(s[p + 2..ExponentEnd(s, p)]) as int
    else if Peek(s, p + 1) == PLUS then DigitsValue(s[p + 2..ExponentEnd(s, p)])
    else DigitsValue(s[p + 1..ExponentEnd(s, p)])
  }

  function Scale(n: nat, e: int): real {
    if e >= 0 then (n * Pow10(e)) as real else n as real / Pow10(-e) as real
  }

  /**
   What `strtod` makes of a text: a decimal value and where it stopped, or one of the
   conversions no JSON number comes from (hexadecimal, infinite, not a number).
   */
  datatype Conversion = DecimalValue(x: real, end: nat) | Foreign(end: nat)

  /** The unsigned decimal literal at `p`, if there is one. */
  function Decimal(s: bytes, p: nat): (r: Option<(real, nat)>)
    requires p <= |s|
    ensures r.Some? ==> p < r.value.1 <= |s|
  {
    var i := DigitsEnd(s, p);
    var f := if Peek(s, i) == DOT then DigitsEnd(s, i + 1) else i;
    var whole := s[p..i];
    var fraction := if f > i then s[i + 1..f] else [];
    if |whole| + |fraction| == 0 then None
    else Some((Scale(DigitsValue(whole + fraction), ExponentValue(s, f) - |fraction|), ExponentEnd(s, f)))
  }

  /** A hexadecimal literal at `p`: `0x` and at least one hexadecimal digit. */
  predicate HexLiteral(s: bytes, p: nat)
    requires p <= |s|
  {
    && Peek(s, p) == ZERO
    && (Peek(s, p + 1) == LOWER_X || Peek(s, p + 1) == UPPER_X)
    && (IsHexDigit(Peek(s, p + 2)) || (Peek(s, p + 2) == DOT && IsHexDigit(Peek(s, p + 3))))
  }

  /** ASCII letters compared without case. */
  predicate Letter(c: byte, lower: byte) {
    c == lower || c as int + 32 == lower as int
  }

  /** `inf` or `nan` at `p`. */
  predicate InfOrNan(s: bytes, p: nat)
    requires p <= |s|
  {
    || (Letter(Peek(s, p), 0x69) && Letter(Peek(s, p + 1), 0x6E) && Letter(Peek(s, p + 2), 0x66))
    || (Letter(Peek(s, p), 0x6E) && Letter(Peek(s, p + 1), 0x61) && Letter(Peek(s, p + 2), 0x6E))
  }

  predicate Alphanumeric(c: byte) {
    IsDigit(c) || 0x41 <= c <= 0x5A || 0x61 <= c <= 0x7A || c == 0x5F
  }

  function AlphanumericEnd(s: bytes, p: nat): (q: nat)
    requires p <= |s|
    ensures p <= q <= |s|
    decreases |s| - p
  {
    if Alphanumeric(Peek(s, p)) then AlphanumericEnd(s, p + 1) else p
  }

  /** `inity` at `p`. */
  predicate Inity(s: bytes, p: nat)
    requires p <= |s|
  {
    && Letter(Peek(s, p), 0x69) && Letter(Peek(s, p + 1), 0x6E) && Letter(Peek(s, p + 2), 0x69)
    && Letter(Peek(s, p + 3), 0x74) && Letter(Peek(s, p + 4), 0x79)
  }

  /** The position behind `inf` or `infinity`, `nan` or `nan` with characters in parentheses. */
  function InfOrNanEnd(s: bytes, p: nat): (q: nat)
    requires p <= |s| && InfOrNan(s, p)
    ensures p + 3 <= q <= |s|
  {
    if Letter(Peek(s, p), 0x69) then if Inity(s, p + 3) then p + 8 else p + 3
    else if Peek(s, p + 3) == LPAREN && Peek(s, AlphanumericEnd(s, p + 4)) == RPAREN then AlphanumericEnd(s, p + 4) + 1
    else p + 3
  }

  /**
   `strtod` on a text that starts with a minus or a digit. A hexadecimal literal may go
   on behind the end given here; its `x` is in front of that. Where nothing can be
   converted the value is zero and the cursor stays.
   */
  function StrToD(s: bytes, p: nat): (r: Conversion)
    requires p <= |s|
    ensures p <= r.end <= |s|
  {
    var q := if Peek(s, p) == MINUS then p + 1 else p;
    if HexLiteral(s, q) then Foreign(q + 3)
    else if InfOrNan(s, q) then Foreign(InfOrNanEnd(s, q))
    else
      match Decimal(s, q)
      case None => DecimalValue(0.0, p)
      case Some((x, end)) => DecimalValue(if q > p then -x else x, end)
  }

  /** `is_decimal`: no superfluous leading zero and no `x`. */
  predicate DecimalForm(s: bytes) {
    && !(|s| > 1 && s[0] == ZERO && s[1] != DOT)
    && !(|s| > 2 && s[0] == MINUS && s[1] == ZERO && s[2] != DOT)
    && forall i | 0 <= i < |s| :: s[i] != LOWER_X && s[i] != UPPER_X
  }

  method IsDecimal(s: bytes, p: nat, length: nat) returns (ok: bool)
    requires p + length <= |s|
    ensures ok == DecimalForm(s[p..p + length])
    ensures Byte('x') in s[p..p + length] || Byte('X') in s[p..p + length] ==> !ok
  {
    ghost var t := s[p..p + length];
    if length > 1 && s[p] == ZERO && s[p + 1] != DOT {
      return false;
    }
    if length > 2 && s[p] == MINUS && s[p + 1] == ZERO && s[p + 2] != DOT {
      return false;
    }
    var n: nat := length;
    while n > 0
      invariant n <= length
      invariant forall i | n <= i < length :: t[i] != LOWER_X && t[i] != UPPER_X
    {
      n := n - 1;
      assert s[p + n] == t[n];
      if s[p + n] == LOWER_X || s[p + n] == UPPER_X {
        return false;
      }
    }
    return true;
  }

  /** `parse_number_value`: the value and the position behind the literal. */
  function ParseNumber(s: bytes, p: nat): (r: Option<(real, nat)>)
    requires p <= |s|
    ensures r.Some? ==> p <= r.value.1 <= |s|
  {
    match StrToD(s, p)
    case Foreign(_) => None
    case DecimalValue(x, end) => if DecimalForm(s[p..end]) then Some((x, end)) else None
  }

  /**
   The literals that are refused although `is_decimal` lets them pass, so that the cursor
   has moved: infinities and what is not a number, with a minus in front and without an `x`.
   */
  lemma MovedAndRefusedIff(s: bytes, p: nat)
    requires p < |s| && (s[p] == MINUS || IsDigit(s[p]))
    ensures ParseNumber(s, p).None? && DecimalForm(s[p..StrToD(s, p).end])
       <==> && s[p] == MINUS && InfOrNan(s, p + 1)
            && forall i | p < i < InfOrNanEnd(s, p + 1) :: s[i] != LOWER_X && s[i] != UPPER_X
  {
    hide Decimal;
    var q := if s[p] == MINUS then p + 1 else p;
    var t := s[p..StrToD(s, p).end];
    assert forall i | p <= i < p + |t| :: s[i] == t[i - p];
    if HexLiteral(s, q) {
      assert t[q + 1 - p] == Peek(s, q + 1);
    }
  }

  /** Exactly when a literal consumes nothing: a minus that no number follows. It is then taken for zero. */
  lemma LoneMinusIsZero(s: bytes, p: nat)
    requires p < |s| && s[p] == MINUS
    ensures ParseNumber(s, p).Some? && ParseNumber(s, p).value.1 == p
       <==> && !IsDigit(Peek(s, p + 1)) && !InfOrNan(s, p + 1)
            && !(Peek(s, p + 1) == DOT && IsDigit(Peek(s, p + 2)))
    ensures ParseNumber(s, p).Some? && ParseNumber(s, p).value.1 == p ==> ParseNumber(s, p).value.0 == 0.0
  {
    hide DigitsValue, Scale, ExponentValue;
    var i := DigitsEnd(s, p + 1);
    assert i > p + 1 <==> IsDigit(Peek(s, p + 1));
    if Peek(s, p + 1) == DOT {
      assert DigitsEnd(s, p + 2) > p + 2 <==> IsDigit(Peek(s, p + 2));
    }
  }

  lemma {:induction false} DigitsEndAt(s: bytes, p: nat, q: nat)
    requires p <= q <= |s| && forall i | p <= i < q :: IsDigit(s[i])
    requires !IsDigit(Peek(s, q))
    ensures DigitsEnd(s, p) == q
    decreases q - p
  {
    if p < q {
      DigitsEndAt(s, p + 1, q);
    }
  }
}
