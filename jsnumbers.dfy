/** The JavaScript number built-ins the program uses: Number.parseInt (with radix 10
    and without a radix), Number.parseFloat, number equality, `> 0`, Number.isInteger
    and the decimal text of an integer. Numbers are exact decimals here: the rounding
    of the parsed value to double precision is not modelled. */
module JsNumbers {
  import opened JsStrings

  predicate IsDigit(c: char)
  {
    '0' <= c <= '9'
  }

  predicate AllDigits(s: string)
  {
    forall i :: 0 <= i < |s| ==> IsDigit(s[i])
  }

  function DigitValue(c: char): nat
    requires IsDigit(c)
  {
    c as int - '0' as int
  }

  function Pow10(n: nat): (r: nat)
    ensures r >= 1
  {
    if n == 0 then 1 else 10 * Pow10(n - 1)
  }

  /** m * 10^k: m shifted k decimal places to the left. */
  function Shift(m: int, k: nat): (r: int)
    ensures m >= 0 ==> r >= m
  {
    if k == 0 then m else 10 * Shift(m, k - 1)
  }

  /** The last k decimal digits of m are zeros (m is a multiple of 10^k). */
  predicate EndsInZeros(m: int, k: nat)
    decreases k
  {
    k == 0 || (m % 10 == 0 && EndsInZeros(m / 10, k - 1))
  }

  /** The value of a string of decimal digits, most significant digit first. */
  function DigitsValue(s: string): nat
    requires AllDigits(s)
  {
    if s == [] then 0 else DigitsValue(s[..|s| - 1]) * 10 + DigitValue(s[|s| - 1])
  }

  /** The length of the longest prefix of decimal digits. */
  function LeadingDigits(s: string): (n: nat)
    ensures n <= |s|
    ensures forall i :: 0 <= i < n ==> IsDigit(s[i])
    ensures n == |s| || !IsDigit(s[n])
  {
    if |s| > 0 && IsDigit(s[0]) then 1 + LeadingDigits(s[1..]) else 0
  }

  predicate IsHexDigit(c: char)
  {
    IsDigit(c) || 'a' <= c <= 'f' || 'A' <= c <= 'F'
  }

  function HexDigitValue(c: char): nat
    requires IsHexDigit(c)
  {
    if IsDigit(c) then DigitValue(c)
    else if 'a' <= c <= 'f' then c as int - 'a' as int + 10
    else c as int - 'A' as int + 10
  }

  /** The value of a string of hexadecimal digits, most significant digit first. */
  function HexValue(s: string): nat
    requires forall i :: 0 <= i < |s| ==> IsHexDigit(s[i])
  {
    if s == [] then 0 else HexValue(s[..|s| - 1]) * 16 + HexDigitValue(s[|s| - 1])
  }

  /** The length of the longest prefix of hexadecimal digits. */
  function LeadingHexDigits(s: string): (n: nat)
    ensures n <= |s|
    ensures forall i :: 0 <= i < n ==> IsHexDigit(s[i])
    ensures n == |s| || !IsHexDigit(s[n])
  {
    if |s| > 0 && IsHexDigit(s[0]) then 1 + LeadingHexDigits(s[1..]) else 0
  }

  /** A number as the two parsers produce it: NaN, an infinity, or the exact
      decimal value mantissa * 10^exponent. */
  datatype JsNumber = NaN | Infinity(negative: bool) | Finite(mantissa: int, exponent: int)

  function Min(a: int, b: int): int
  {
    if a <= b then a else b
  }

  /** x == y, which for two numbers is also x === y: NaN equals nothing, infinities
      equal when their signs agree, finite numbers when their values agree (so -0 == 0). */
  predicate NumberEquals(x: JsNumber, y: JsNumber)
  {
    match (x, y)
    case (Finite(m1, e1), Finite(m2, e2)) =>
      var e := Min(e1, e2);
      Shift(m1, e1 - e) == Shift(m2, e2 - e)
    case (Infinity(n1), Infinity(n2)) => n1 == n2
    case _ => false
  }

  /** x > 0 (false for NaN). */
  predicate IsPositive(x: JsNumber)
  {
    x == Infinity(false) || (x.Finite? && x.mantissa > 0)
  }

  /** Number.isInteger(x): a finite number without a fractional part. */
  predicate IsWhole(x: JsNumber)
  {
    x.Finite? && (x.exponent >= 0 || EndsInZeros(x.mantissa, -x.exponent))
  }

  function Signed(negative: bool, v: nat): int
  {
    if negative then -(v as int) else v
  }

  /** The optional sign that both parsers accept after the leading white space. */
  function SplitSign(s: string): (bool, string)
  {
    if |s| > 0 && (s[0] == '+' || s[0] == '-') then (s[0] == '-', s[1..]) else (false, s)
  }

  /** Number.parseInt(s, 10): after white space and a sign, the longest run of decimal
      digits; NaN when there is none. The result is always NaN or a whole number. */
  function ParseInt(s: string): (r: JsNumber)
    ensures r == NaN || (IsWhole(r) && r.exponent == 0)
  {
    var (negative, u) := SplitSign(TrimStart(s));
    var n := LeadingDigits(u);
    if n == 0 then NaN else Finite(Signed(negative, DigitsValue(u[..n])), 0)
  }

  /** A "0x" or "0X" prefix, which makes Number.parseInt without a radix read hexadecimal. */
  predicate HasHexPrefix(u: string)
  {
    |u| >= 2 && u[0] == '0' && (u[1] == 'x' || u[1] == 'X')
  }

  /** Number.parseInt(s) with no radix: as with radix 10, except that after the sign a
      "0x"/"0X" prefix switches to base 16 (NaN when no hexadecimal digit follows). */
  function ParseIntAnyRadix(s: string): (r: JsNumber)
    ensures r == NaN || (IsWhole(r) && r.exponent == 0)
  {
    var (negative, u) := SplitSign(TrimStart(s));
    if HasHexPrefix(u) then
      var h := LeadingHexDigits(u[2..]);
      if h == 0 then NaN else Finite(Signed(negative, HexValue(u[2..][..h])), 0)
    else ParseInt(s)
  }

  /** The prefix Number.parseFloat reads: a StrDecimalLiteral (section 7.1.4.1 of
      ECMA-262) after white space, or nothing. */
  datatype FloatLiteral =
    | NoLiteral
    | InfinityLiteral(negative: bool)
    | DecimalLiteral(negative: bool, intDigits: string, fracDigits: string, exponent: int)

  /** The exponent part "e" or "E", an optional sign and at least one digit; 0 when the
      text does not start with one (an "e" without digits is not read). */
  function ExponentPart(s: string): int
  {
    if |s| > 0 && (s[0] == 'e' || s[0] == 'E') then
      var (negative, v) := SplitSign(s[1..]);
      var k := LeadingDigits(v);
      if k == 0 then 0 else Signed(negative, DigitsValue(v[..k]))
    else 0
  }

  /** The digits after a leading "." ("" when the text does not start with one). */
  function FractionDigits(t: string): (f: string)
    ensures AllDigits(f)
  {
    if |t| > 0 && t[0] == '.' then t[1..1 + LeadingDigits(t[1..])] else ""
  }

  /** What follows the fraction: the text after the point and its digits, if any. */
  function AfterFraction(t: string): string
  {
    if |t| > 0 && t[0] == '.' then t[1 + LeadingDigits(t[1..])..] else t
  }

  /** The longest prefix of s, after white space, that reads as a decimal literal:
      sign, integer digits, optionally "." and fraction digits, optionally an exponent;
      at least one digit before or after the point. */
  function ScanFloat(s: string): (r: FloatLiteral)
    ensures r.DecimalLiteral? ==> AllDigits(r.intDigits) && AllDigits(r.fracDigits)
  {
    var (negative, u) := SplitSign(TrimStart(s));
    ScanUnsigned(negative, u)
  }

  /** ScanFloat after the white space and the sign. */
  function ScanUnsigned(negative: bool, u: string): (r: FloatLiteral)
    ensures r.DecimalLiteral? ==> AllDigits(r.intDigits) && AllDigits(r.fracDigits)
  {
    if "Infinity" <= u then InfinityLiteral(negative)
    else
      var i := LeadingDigits(u);
      var frac := FractionDigits(u[i..]);
      if i == 0 && frac == "" then NoLiteral
      else DecimalLiteral(negative, u[..i], frac, ExponentPart(AfterFraction(u[i..])))
  }

  /** Number.parseFloat(s). */
  function ParseFloat(s: string): JsNumber
  {
    LiteralValue(ScanFloat(s))
  }

  /** The number a scanned literal denotes. */
  function LiteralValue(lit: FloatLiteral): JsNumber
    requires lit.DecimalLiteral? ==> AllDigits(lit.intDigits) && AllDigits(lit.fracDigits)
  {
    match lit
    case NoLiteral => NaN
    case InfinityLiteral(negative) => Infinity(negative)
    case DecimalLiteral(negative, intDigits, fracDigits, exponent) =>
      var value := Shift(DigitsValue(intDigits), |fracDigits|) + DigitsValue(fracDigits);
      Finite(Signed(negative, value), exponent - |fracDigits|)
  }

  /** The value parseFloat gives a decimal literal: the digits of both parts as one
      integer, scaled down by the number of fraction digits. */
  lemma ParseFloatOfLiteral(s: string, negative: bool, intDigits: string, fracDigits: string, exponent: int)
    requires ScanFloat(s) == DecimalLiteral(negative, intDigits, fracDigits, exponent)
    ensures ParseFloat(s) == Finite(Signed(negative, Shift(DigitsValue(intDigits), |fracDigits|) + DigitsValue(fracDigits)),
                                    exponent - |fracDigits|)
  {
    DecimalLiteralValue(negative, intDigits, fracDigits, exponent);
  }

  /** The value parseFloat gives a literal without fraction digits or exponent. */
  lemma ParseFloatOfInteger(s: string, negative: bool, digits: string)
    requires ScanFloat(s) == DecimalLiteral(negative, digits, "", 0)
    ensures ParseFloat(s) == Finite(Signed(negative, DigitsValue(digits)), 0)
  {
    IntegerLiteralValue(negative, digits);
    assert ParseFloat(s) == LiteralValue(ScanFloat(s));
  }

  /** LiteralValue of a literal without fraction digits or exponent. */
  lemma IntegerLiteralValue(negative: bool, digits: string)
    requires AllDigits(digits)
    ensures LiteralValue(DecimalLiteral(negative, digits, "", 0)) == Finite(Signed(negative, DigitsValue(digits)), 0)
  {
    DecimalLiteralValue(negative, digits, "", 0);
    assert DigitsValue("") == 0 && Shift(DigitsValue(digits), 0) == DigitsValue(digits);
  }

  /** LiteralValue of a decimal literal, written out. */
  lemma DecimalLiteralValue(negative: bool, intDigits: string, fracDigits: string, exponent: int)
    requires AllDigits(intDigits) && AllDigits(fracDigits)
    ensures LiteralValue(DecimalLiteral(negative, intDigits, fracDigits, exponent))
         == Finite(Signed(negative, Shift(DigitsValue(intDigits), |fracDigits|) + DigitsValue(fracDigits)), exponent - |fracDigits|)
  {
  }

  /** The decimal text of a natural number, as template literals and
      Number.prototype.toString write it: no leading zero except for 0 itself. */
  function NatToString(n: nat): (r: string)
    ensures r != [] && AllDigits(r)
    ensures r[0] == '0' ==> n == 0
  {
    if n < 10 then ["0123456789"[n]]
    else NatToString(n / 10) + ["0123456789"[n % 10]]
  }

  /** The decimal text of an integer: a minus sign before a negative one. */
  function IntToString(n: int): string
  {
    if n < 0 then "-" + NatToString(-n) else NatToString(n)
  }

  /** Reading the decimal text of n back gives n. */
  lemma {:induction false} NatToStringRoundTrip(n: nat)
    ensures DigitsValue(NatToString(n)) == n
  {
    var s := NatToString(n);
    if n >= 10 {
      NatToStringRoundTrip(n / 10);
      assert s[..|s| - 1] == NatToString(n / 10);
    }
  }

  /** A string of digits is read to its end. */
  lemma AllDigitsRead(u: string)
    requires AllDigits(u)
    ensures LeadingDigits(u) == |u|
  {
  }

  /** k digits never reach 10^k. */
  lemma {:induction false} DigitsValueBound(s: string)
    requires AllDigits(s)
    ensures DigitsValue(s) < Pow10(|s|)
  {
    if s != [] {
      DigitsValueBound(s[..|s| - 1]);
    }
  }

  /** The text has no exponent part that parseFloat reads (or it is zero). */
  predicate ExponentFree(s: string)
  {
    !(ScanFloat(s).DecimalLiteral? && ScanFloat(s).exponent != 0)
  }

  /** parseInt with radix 10 reads the same digits as the integer part parseFloat
      reads: NaN when that part is empty, else its value with the same sign. */
  lemma ParseIntReadsIntegerPart(s: string)
    requires ScanFloat(s).DecimalLiteral?
    ensures ParseInt(s) == if ScanFloat(s).intDigits == [] then NaN
      else Finite(Signed(ScanFloat(s).negative, DigitsValue(ScanFloat(s).intDigits)), 0)
  {
    var (negative, u) := SplitSign(TrimStart(s));
    assert ScanFloat(s) == ScanUnsigned(negative, u);
    UnsignedIntegerPart(negative, u);
  }

  /** The integer part ScanUnsigned reads is the run of leading digits. */
  lemma UnsignedIntegerPart(negative: bool, u: string)
    requires ScanUnsigned(negative, u).DecimalLiteral?
    ensures ScanUnsigned(negative, u).negative == negative
    ensures ScanUnsigned(negative, u).intDigits == u[..LeadingDigits(u)]
  {
  }

  /** Shifting keeps the sign. */
  lemma {:induction false} ShiftSign(m: int, k: nat)
    ensures Shift(m, k) > 0 <==> m > 0
  {
    if k > 0 {
      ShiftSign(m, k - 1);
    }
  }

  /** A shifted number ends in as many zeros as it was shifted by. */
  lemma {:induction false} ShiftEndsInZeros(m: int, k: nat)
    ensures EndsInZeros(Shift(m, k), k)
  {
    if k > 0 {
      ShiftEndsInZeros(m, k - 1);
      assert (10 * Shift(m, k - 1)) / 10 == Shift(m, k - 1);
    }
  }

  /** Shifting i by k places and adding d below 10^k leaves d as the last k digits:
      they are all zeros only when d is 0. */
  lemma {:induction false} ShiftAddEndsInZeros(i: int, d: nat, k: nat)
    requires d < Pow10(k)
    requires EndsInZeros(Shift(i, k) + d, k)
    ensures d == 0
  {
    if k > 0 {
      var x := Shift(i, k) + d;
      assert x == 10 * Shift(i, k - 1) + d;
      assert d % 10 == 0;
      assert x / 10 == Shift(i, k - 1) + d / 10;
      ShiftAddEndsInZeros(i, d / 10, k - 1);
    }
  }

  /** A number equal to a whole number m is whole itself and is positive exactly when
      m is. */
  lemma EqualsWholeInteger(m: int, y: JsNumber)
    requires NumberEquals(Finite(m, 0), y)
    ensures IsWhole(y) && (IsPositive(y) <==> m > 0)
  {
    var m2, e2 := y.mantissa, y.exponent;
    if e2 >= 0 {
      assert m == Shift(m2, e2);
      ShiftSign(m2, e2);
    } else {
      assert Shift(m, -e2) == m2;
      ShiftSign(m, -e2);
      ShiftEndsInZeros(m, -e2);
    }
  }

  /** A number i.f (k fraction digits f of value d) that is whole and positive has no
      sign, only zeros after the point, a positive integer part, and equals it. */
  lemma WholeDecimalValue(negative: bool, i: nat, d: nat, k: nat)
    requires d < Pow10(k)
    requires IsWhole(Finite(Signed(negative, Shift(i, k) + d), -(k as int)))
    requires IsPositive(Finite(Signed(negative, Shift(i, k) + d), -(k as int)))
    ensures !negative && d == 0 && i > 0
    ensures NumberEquals(Finite(i, 0), Finite(Shift(i, k) + d, -(k as int)))
  {
    WholeDecimalParts(negative, i, d, k, Shift(i, k) + d);
    EqualsShifted(i, k);
  }

  /** WholeDecimalValue for x = i.f written out: the sign, the fraction and the
      integer part. */
  lemma WholeDecimalParts(negative: bool, i: nat, d: nat, k: nat, x: nat)
    requires x == Shift(i, k) + d && d < Pow10(k)
    requires k == 0 || EndsInZeros(Signed(negative, x), k)
    requires Signed(negative, x) > 0
    ensures !negative && d == 0 && i > 0
  {
    PositiveSigned(negative, x);
    if k > 0 {
      ShiftAddEndsInZeros(i, d, k);
    }
    ShiftSign(i, k);
  }

  /** A signed magnitude is positive only without the sign and when the magnitude is. */
  lemma PositiveSigned(negative: bool, v: nat)
    requires Signed(negative, v) > 0
    ensures !negative && v > 0
  {
  }

  /** m equals m shifted k places left and then k places right. */
  lemma EqualsShifted(m: int, k: nat)
    ensures NumberEquals(Finite(m, 0), Finite(Shift(m, k), -(k as int)))
  {
    var e := Min(0, -(k as int));
    assert e == -(k as int) && 0 - e == k && -(k as int) - e == 0;
  }

  function Abs(n: int): nat
  {
    if n < 0 then -n else n
  }

  /** After the (absent) white space and the sign, the decimal text of n is the
      digits of its magnitude. */
  lemma IntegerTextSign(n: int)
    ensures SplitSign(TrimStart(IntToString(n))) == (n < 0, NatToString(Abs(n)))
  {
    var s := IntToString(n);
    assert s[0] == '-' || IsDigit(s[0]);
    TrimStartOfWord(s);
  }

  /** parseFloat reads a signed run of digits as digits with no fraction and no
      exponent. */
  lemma SignedDigitsScan(s: string, negative: bool, digits: string)
    requires SplitSign(TrimStart(s)) == (negative, digits)
    requires digits != [] && AllDigits(digits)
    ensures ScanFloat(s) == DecimalLiteral(negative, digits, "", 0)
  {
    DigitsScan(negative, digits);
  }

  /** A run of digits, after the sign, reads as itself with no fraction and no
      exponent. */
  lemma DigitsScan(negative: bool, digits: string)
    requires digits != [] && AllDigits(digits)
    ensures ScanUnsigned(negative, digits) == DecimalLiteral(negative, digits, "", 0)
  {
    AllDigitsRead(digits);
    var i := LeadingDigits(digits);
    assert digits[..i] == digits;
    assert digits[i..] == [];
    assert FractionDigits([]) == "" && ExponentPart(AfterFraction([])) == 0;
    assert !("Infinity" <= digits) by { assert "Infinity"[0] != digits[0]; }
  }

  /** Both forms of parseInt read a signed run of digits (without a hexadecimal
      prefix) as the integer it writes. */
  lemma SignedDigitsParseInt(s: string, negative: bool, digits: string)
    requires SplitSign(TrimStart(s)) == (negative, digits)
    requires digits != [] && AllDigits(digits) && !HasHexPrefix(digits)
    ensures ParseInt(s) == Finite(Signed(negative, DigitsValue(digits)), 0)
    ensures ParseIntAnyRadix(s) == ParseInt(s)
  {
    AllDigitsRead(digits);
    assert digits[..LeadingDigits(digits)] == digits;
  }

  /** parseFloat reads a signed run of digits as the integer it writes. */
  lemma SignedDigitsParseFloat(s: string, negative: bool, digits: string)
    requires SplitSign(TrimStart(s)) == (negative, digits)
    requires digits != [] && AllDigits(digits)
    ensures ParseFloat(s) == Finite(Signed(negative, DigitsValue(digits)), 0)
  {
    SignedDigitsScan(s, negative, digits);
    ParseFloatOfInteger(s, negative, digits);
  }

  /** The decimal text of an integer reads back as that integer with every parser. */
  lemma IntegerTextParses(n: int)
    ensures ParseInt(IntToString(n)) == Finite(n, 0)
    ensures ParseIntAnyRadix(IntToString(n)) == Finite(n, 0)
    ensures ParseFloat(IntToString(n)) == Finite(n, 0)
  {
    var digits := NatToString(Abs(n));
    IntegerTextSign(n);
    NatToStringRoundTrip(Abs(n));
    SignedDigitsParseInt(IntToString(n), n < 0, digits);
    SignedDigitsParseFloat(IntToString(n), n < 0, digits);
  }
}
