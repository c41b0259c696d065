/**
 * The canonical decimal text form of a fixed-point value: `fputil::to_string`
 * and `fputil::from_string` (and the stream operators `<<` and `>>`, which
 * write and read the same text).
 *
 * Accepted text: an optional sign `+` or `-`, one or more digits, and
 * optionally a point followed by one or more digits.
 */
module FixedPointText {
  import opened Wrappers
  import opened Arithmetic
  import opened FixedPointNumber

  /** The failure `from_string` reports on malformed text. */
  datatype ParseError = ParseError

  predicate AllDigits(s: string) { forall i | 0 <= i < |s| :: IsDigit(s[i]) }

  function DigitValue(c: char): (d: nat)
    requires IsDigit(c)
    ensures d < 10 && DigitChar(d) == c
  {
    c as int - '0' as int
  }

  /** The decimal numeral of n, without leading zeros ("0" for zero). */
  function NatToString(n: nat): (s: string)
    ensures |s| >= 1 && AllDigits(s)
    ensures |s| > 1 ==> s[0] != '0'
  {
    if n < 10 then [DigitChar(n)] else NatToString(n / 10) + [DigitChar(n % 10)]
  }

  /** The number a string of decimal digits denotes, most significant digit first. */
  function DigitsValue(s: string): (n: nat)
    requires AllDigits(s)
    ensures n < Pow10(|s|)
  {
    if s == [] then 0 else DigitsValue(s[..|s| - 1]) * 10 + DigitValue(s[|s| - 1])
  }

  function Zeros(k: nat): (s: string)
    ensures |s| == k && AllDigits(s)
  {
    seq(k, _ => '0')
  }

  /** Left-pads a digit string with zeros to at least `width` characters. */
  function PadZeros(s: string, width: nat): (r: string)
    requires AllDigits(s)
    ensures AllDigits(r)
    ensures |r| == Max(|s|, width)
    ensures DigitsValue(r) == DigitsValue(s)
  {
    if |s| < width then
      var z := Zeros(width - |s|);
      DigitsValueAppend(z, s);
      ZerosValue(width - |s|);
      assert DigitsValue(z) * Pow10(|s|) == 0;
      z + s
    else
      s
  }

  // ---------------------------------------------------------------------
  // Digit-string lemmas

  lemma {:induction false} DigitsValueAppend(a: string, b: string)
    requires AllDigits(a) && AllDigits(b)
    ensures AllDigits(a + b)
    ensures DigitsValue(a + b) == DigitsValue(a) * Pow10(|b|) + DigitsValue(b)
  {
    AllDigitsAppend(a, b);
    if b == [] {
      assert a + b == a;
    } else {
      var b', c := b[..|b| - 1], b[|b| - 1];
      AllDigitsPrefix(b, |b| - 1);
      AllDigitsPrefix(a + b, |a + b| - 1);
      assert (a + b)[..|a + b| - 1] == a + b';
      assert (a + b)[|a + b| - 1] == c;
      DigitsValueAppend(a, b');
      var x, y, d := DigitsValue(a), DigitsValue(b'), DigitValue(c);
      assert DigitsValue(a + b) == DigitsValue(a + b') * 10 + d;
      assert DigitsValue(b) == y * 10 + d;
      assert |b| == |b'| + 1;
      ShiftDigit(x, Pow10(|b'|), Pow10(|b|), y, d);
    }
  }

  lemma AllDigitsAppend(a: string, b: string)
    requires AllDigits(a) && AllDigits(b)
    ensures AllDigits(a + b)
  {
    forall i | 0 <= i < |a + b| ensures IsDigit((a + b)[i]) {
      if i >= |a| {
        assert (a + b)[i] == b[i - |a|];
      }
    }
  }

  lemma AllDigitsPrefix(s: string, k: nat)
    requires AllDigits(s) && k <= |s|
    ensures AllDigits(s[..k])
  {
  }

  lemma ShiftDigit(x: int, p: int, q: int, y: int, d: int)
    requires q == p * 10
    ensures (x * p + y) * 10 + d == x * q + (y * 10 + d)
  {
  }

  lemma {:induction false} ZerosValue(k: nat)
    ensures DigitsValue(Zeros(k)) == 0
  {
    if k > 0 {
      assert Zeros(k)[..k - 1] == Zeros(k - 1);
      ZerosValue(k - 1);
    }
  }

  lemma {:induction false} NatToStringValue(n: nat)
    ensures DigitsValue(NatToString(n)) == n
  {
    if n >= 10 {
      var s := NatToString(n);
      assert s[..|s| - 1] == NatToString(n / 10);
      NatToStringValue(n / 10);
    }
  }

  lemma {:induction false} NatToStringLength(n: nat, k: nat)
    requires k >= 1 && n < Pow10(k)
    ensures |NatToString(n)| <= k
  {
    if n >= 10 {
      assert k >= 2;
      assert n / 10 < Pow10(k - 1);
      NatToStringLength(n / 10, k - 1);
    }
  }

  /** AllDigits strings contain no point. */
  lemma {:induction false} PointIndexOfAllDigits(s: string)
    requires AllDigits(s)
    ensures PointIndex(s) == |s|
  {
    if s != [] {
      assert AllDigits(s[1..]) by {
        forall i | 0 <= i < |s| - 1 ensures IsDigit(s[1..][i]) {
          assert s[1..][i] == s[i + 1];
        }
      }
      PointIndexOfAllDigits(s[1..]);
    }
  }

  // ---------------------------------------------------------------------
  // to_string

  /**
   * fputil::to_string: the sign if the value is negative, then the integer
   * part |value| / 10^precision, then (when precision > 0) a point and the
   * fractional part |value| % 10^precision left-padded with zeros to
   * exactly `precision` digits.
   */
  function ToString(x: FixedPoint): (s: string)
    ensures |s| >= 1
    ensures s[0] == '-' <==> x.value < 0
    ensures x.precision == 0 ==> '.' !in s
    ensures x.precision > 0 ==>
      |s| > x.precision + 1 && s[|s| - x.precision - 1] == '.' && AllDigits(s[|s| - x.precision..])
  {
    var sign := if x.value < 0 then "-" else "";
    var u := Unsigned(Abs(x.value), x.precision);
    SignedText(sign, u, x.precision);
    sign + u
  }

  /**
   * The digits of to_string: between the sign and the point, |value| /
   * 10^precision without leading zeros; after the point, |value| %
   * 10^precision.
   */
  lemma ToStringDigits(x: FixedPoint)
    ensures var s, k := ToString(x), if x.value < 0 then 1 else 0;
      var e := if x.precision == 0 then |s| else |s| - x.precision - 1;
      && k < e && AllDigits(s[k..e])
      && DigitsValue(s[k..e]) == Abs(x.value) / Pow10(x.precision)
      && (e - k > 1 ==> s[k] != '0')
    ensures x.precision > 0 ==>
      var s := ToString(x);
      AllDigits(s[|s| - x.precision..]) && DigitsValue(s[|s| - x.precision..]) == Abs(x.value) % Pow10(x.precision)
  {
    var sign := if x.value < 0 then "-" else "";
    var m, p := Abs(x.value), x.precision;
    var u := Unsigned(m, p);
    assert ToString(x) == sign + u;
    SignedDigits(sign, u, p, m / Pow10(p), m % Pow10(p));
  }

  /** The digit fields of u stay where they are, relative to the end, after a sign is put in front. */
  lemma SignedDigits(sign: string, u: string, p: nat, q: nat, r: nat)
    requires var e := if p == 0 then |u| else |u| - p - 1;
      && 1 <= e <= |u| && AllDigits(u[..e]) && DigitsValue(u[..e]) == q && (e > 1 ==> u[0] != '0')
    requires p > 0 ==> p <= |u| && AllDigits(u[|u| - p..]) && DigitsValue(u[|u| - p..]) == r
    ensures var s, k := sign + u, |sign|;
      var e := if p == 0 then |s| else |s| - p - 1;
      && k < e && AllDigits(s[k..e]) && DigitsValue(s[k..e]) == q && (e - k > 1 ==> s[k] != '0')
    ensures p > 0 ==>
      var s := sign + u;
      AllDigits(s[|s| - p..]) && DigitsValue(s[|s| - p..]) == r
  {
    var s, k := sign + u, |sign|;
    var e := if p == 0 then |s| else |s| - p - 1;
    assert s[k..e] == u[..e - k];
    if p > 0 {
      assert s[|s| - p..] == u[|u| - p..];
    }
  }

  lemma SignedText(sign: string, u: string, p: nat)
    requires |sign| <= 1 && (sign == [] || sign[0] == '-')
    requires |u| >= 1 && IsDigit(u[0])
    requires p == 0 ==> AllDigits(u)
    requires p > 0 ==> |u| > p + 1 && u[|u| - p - 1] == '.' && AllDigits(u[|u| - p..])
    ensures var s := sign + u;
      && (s[0] == '-' <==> sign != [])
      && (p == 0 ==> '.' !in s)
      && (p > 0 ==> |s| > p + 1 && s[|s| - p - 1] == '.' && AllDigits(s[|s| - p..]))
  {
    var s := sign + u;
    if sign == [] {
      assert s == u;
    } else {
      assert s[0] == '-';
    }
    if p == 0 {
      forall i | 0 <= i < |s| ensures s[i] != '.' {
        if i >= |sign| {
          assert s[i] == u[i - |sign|];
        }
      }
    } else {
      assert s[|s| - p..] == u[|u| - p..];
      assert s[|s| - p - 1] == u[|u| - p - 1];
    }
  }

  /** The text of the unsigned magnitude m / 10^p. */
  function Unsigned(m: nat, p: nat): (s: string)
    ensures |s| >= 1 && IsDigit(s[0])
    ensures p == 0 ==> AllDigits(s)
    ensures p > 0 ==> |s| > p + 1 && s[|s| - p - 1] == '.' && AllDigits(s[|s| - p..])
    ensures var e := if p == 0 then |s| else |s| - p - 1;
      && AllDigits(s[..e]) && DigitsValue(s[..e]) == m / Pow10(p)
      && (e > 1 ==> s[0] != '0')
    ensures p > 0 ==> DigitsValue(s[|s| - p..]) == m % Pow10(p)
  {
    if p == 0 then
      var s := NatToString(m);
      NatToStringValue(m);
      assert s[..|s|] == s;
      s
    else
      var P := Pow10(p);
      DivModBounds(m, P);
      var whole := NatToString(m / P);
      var fraction := FractionDigits(m % P, p);
      NatToStringValue(m / P);
      PointSplit(whole, fraction);
      whole + "." + fraction
  }

  lemma DivModBounds(m: nat, d: nat)
    requires d > 0
    ensures m / d >= 0 && 0 <= m % d < d
    ensures (m / d) * d + m % d == m
  {
  }

  /** The p-digit zero-padded numeral of r < 10^p. */
  function FractionDigits(r: nat, p: nat): (f: string)
    requires p >= 1 && r < Pow10(p)
    ensures |f| == p && AllDigits(f)
    ensures DigitsValue(f) == r
  {
    NatToStringLength(r, p);
    NatToStringValue(r);
    PadZeros(NatToString(r), p)
  }

  lemma PointSplit(whole: string, fraction: string)
    requires |whole| >= 1 && AllDigits(whole) && AllDigits(fraction)
    ensures var s := whole + "." + fraction;
      && IsDigit(s[0]) && s[|whole|] == '.'
      && s[..|whole|] == whole && s[|whole| + 1..] == fraction
      && PointIndex(s) == |whole|
  {
    var s := whole + "." + fraction;
    assert s[0] == whole[0];
    assert s[..|whole|] == whole;
    assert s[|whole| + 1..] == fraction;
    PointIndexOfDigits(whole, s);
  }

  lemma {:induction false} PointIndexOfDigits(whole: string, s: string)
    requires AllDigits(whole) && |whole| < |s| && s[..|whole|] == whole && s[|whole|] == '.'
    ensures PointIndex(s) == |whole|
  {
    if whole != [] {
      assert s[0] == whole[0];
      assert s[1..][..|whole| - 1] == whole[1..];
      PointIndexOfDigits(whole[1..], s[1..]);
    }
  }

  // ---------------------------------------------------------------------
  // from_string

  /** Index of the first '.' in s, or |s| when there is none. */
  function PointIndex(s: string): (k: nat)
    ensures k <= |s|
    ensures forall i | 0 <= i < k :: s[i] != '.'
    ensures k < |s| ==> s[k] == '.'
  {
    if s == [] || s[0] == '.' then 0 else 1 + PointIndex(s[1..])
  }

  predicate IsSign(c: char) { c == '-' || c == '+' }

  /**
   * fputil::from_string: an optional sign, then the unsigned form read by
   * ParseUnsigned; a leading '-' negates the value.
   */
  function FromString(s: string): (r: Result<FixedPoint, ParseError>)
    ensures |s| == 0 ==> r.Failure?
    ensures r.Success? ==>
      forall i | 0 <= i < |s| :: IsDigit(s[i]) || s[i] == '.' || (i == 0 && IsSign(s[i]))
    ensures r.Success? ==> forall i | 0 <= i < |s| && s[i] == '.' :: r.value.precision == |s| - 1 - i
    ensures r.Success? && '.' !in s ==> r.value.precision == 0
    ensures r.Success? ==>
      r.value.value == if s[0] == '-' then -(DigitsValue(DigitsOnly(s)) as int) else DigitsValue(DigitsOnly(s))
    ensures r.Success? && r.value.value != 0 ==> (r.value.value < 0 <==> s[0] == '-')
  {
    if |s| > 0 && IsSign(s[0]) then
      var body := s[1..];
      match ParseUnsigned(body)
      case Failure(e) => Failure(e)
      case Success(u) =>
        assert forall i | 1 <= i < |s| :: s[i] == body[i - 1];
        assert DigitsOnly(s) == DigitsOnly(body);
        Success(FixedPoint(if s[0] == '-' then -u.value else u.value, u.precision))
    else
      ParseUnsigned(s)
  }

  /**
   * The unsigned part of from_string: one or more digits, optionally a point
   * and one or more digits. The precision is the number of digits after the
   * point and the value all digits read as one integer.
   */
  function ParseUnsigned(b: string): (r: Result<FixedPoint, ParseError>)
    ensures |b| == 0 ==> r.Failure?
    ensures r.Success? ==> r.value.value >= 0
    ensures r.Success? ==> forall i | 0 <= i < |b| :: IsDigit(b[i]) || b[i] == '.'
    ensures r.Success? ==> forall i | 0 <= i < |b| && b[i] == '.' :: r.value.precision == |b| - 1 - i
    ensures r.Success? && '.' !in b ==> r.value.precision == 0
    ensures r.Success? ==> r.value.value == DigitsValue(DigitsOnly(b))
  {
    var k := PointIndex(b);
    var whole := b[..k];
    var fraction := if k < |b| then b[k + 1..] else "";
    if whole == [] || !AllDigits(whole) || (k < |b| && (fraction == [] || !AllDigits(fraction))) then
      Failure(ParseError)
    else
      DigitsValueAppend(whole, fraction);
      ParseUnsignedShape(b, k, whole, fraction);
      if k < |b| then
        assert b == whole + "." + fraction;
        DigitsOnlySplit(whole, fraction);
        Success(FixedPoint(DigitsValue(whole + fraction), |fraction|))
      else
        assert b == whole + fraction;
        DigitsOnlyOfDigits(b);
        Success(FixedPoint(DigitsValue(whole + fraction), |fraction|))
  }

  /** The digits of s in order, every other character dropped. */
  function DigitsOnly(s: string): (d: string)
    ensures AllDigits(d) && |d| <= |s|
  {
    if s == [] then []
    else if IsDigit(s[0]) then [s[0]] + DigitsOnly(s[1..])
    else DigitsOnly(s[1..])
  }

  lemma {:induction false} DigitsOnlyAppend(a: string, b: string)
    ensures DigitsOnly(a + b) == DigitsOnly(a) + DigitsOnly(b)
  {
    if a == [] {
      assert a + b == b;
    } else {
      assert (a + b)[0] == a[0] && (a + b)[1..] == a[1..] + b;
      DigitsOnlyAppend(a[1..], b);
    }
  }

  lemma {:induction false} DigitsOnlyOfDigits(s: string)
    requires AllDigits(s)
    ensures DigitsOnly(s) == s
  {
    if s != [] {
      AllDigitsTail(s);
      DigitsOnlyOfDigits(s[1..]);
      assert s == [s[0]] + s[1..];
    }
  }

  lemma AllDigitsTail(s: string)
    requires AllDigits(s) && s != []
    ensures AllDigits(s[1..])
  {
    forall i | 0 <= i < |s| - 1 ensures IsDigit(s[1..][i]) {
      assert s[1..][i] == s[i + 1];
    }
  }

  /** Dropping the point from whole "." fraction joins the two digit strings. */
  lemma DigitsOnlySplit(whole: string, fraction: string)
    requires AllDigits(whole) && AllDigits(fraction)
    ensures DigitsOnly(whole + "." + fraction) == whole + fraction
  {
    var w := whole + ".";
    DigitsOnlyAppend(w, fraction);
    DigitsOnlyAppend(whole, ".");
    DigitsOnlyOfDigits(whole);
    DigitsOnlyOfDigits(fraction);
    assert DigitsOnly(".") == [];
    assert DigitsOnly(w) == whole;
  }

  /** Unsigned decimal text: digits, or digits, a point and digits. */
  predicate WellFormedUnsigned(b: string)
  {
    || (|b| >= 1 && AllDigits(b))
    || exists k | 0 < k < |b| - 1 :: b[k] == '.' && AllDigits(b[..k]) && AllDigits(b[k + 1..])
  }

  /** Decimal text: unsigned text with an optional leading sign. */
  predicate WellFormed(s: string)
  {
    WellFormedUnsigned(s) || (|s| >= 1 && IsSign(s[0]) && WellFormedUnsigned(s[1..]))
  }

  /** The unsigned parser accepts exactly the well-formed unsigned text. */
  lemma ParseUnsignedAccepts(b: string)
    ensures ParseUnsigned(b).Success? <==> WellFormedUnsigned(b)
  {
    if ParseUnsigned(b).Success? {
      AcceptedIsWellFormed(b);
    }
    if WellFormedUnsigned(b) {
      WellFormedIsAccepted(b);
    }
  }

  lemma AcceptedIsWellFormed(b: string)
    requires ParseUnsigned(b).Success?
    ensures WellFormedUnsigned(b)
  {
    var k := PointIndex(b);
    if k == |b| {
      assert b[..k] == b;
    } else {
      assert b[k] == '.' && AllDigits(b[..k]) && AllDigits(b[k + 1..]);
    }
  }

  lemma WellFormedIsAccepted(b: string)
    requires WellFormedUnsigned(b)
    ensures ParseUnsigned(b).Success?
  {
    if |b| >= 1 && AllDigits(b) {
      PointIndexOfAllDigits(b);
      assert b[..|b|] == b;
    } else {
      var j :| 0 < j < |b| - 1 && b[j] == '.' && AllDigits(b[..j]) && AllDigits(b[j + 1..]);
      PointIndexOfDigits(b[..j], b);
    }
  }

  /** from_string accepts exactly the well-formed text. */
  lemma FromStringAccepts(s: string)
    ensures FromString(s).Success? <==> WellFormed(s)
  {
    if |s| > 0 && IsSign(s[0]) {
      ParseUnsignedAccepts(s[1..]);
      forall k | 0 < k <= |s| ensures !AllDigits(s[..k]) {
        assert s[..k][0] == s[0];
      }
      assert s[..|s|] == s;
    } else {
      ParseUnsignedAccepts(s);
    }
  }

  lemma ParseUnsignedShape(b: string, k: nat, whole: string, fraction: string)
    requires k <= |b| && (forall i | 0 <= i < k :: b[i] != '.') && (k < |b| ==> b[k] == '.')
    requires whole == b[..k] && fraction == (if k < |b| then b[k + 1..] else "")
    requires AllDigits(whole) && AllDigits(fraction)
    ensures forall i | 0 <= i < |b| :: IsDigit(b[i]) || b[i] == '.'
    ensures forall i | 0 <= i < |b| && b[i] == '.' :: |fraction| == |b| - 1 - i
  {
    forall i | 0 <= i < |b|
      ensures IsDigit(b[i]) || b[i] == '.'
      ensures b[i] == '.' ==> |fraction| == |b| - 1 - i
    {
      if i < k {
        assert b[i] == whole[i];
      } else if i > k {
        assert b[i] == fraction[i - k - 1];
      }
    }
  }

  // ---------------------------------------------------------------------
  // Round trip

  /** Reading back the text of any value gives that same value, value and precision alike. */
  lemma FromStringToString(x: FixedPoint)
    ensures FromString(ToString(x)) == Success(x)
  {
    var m, p := Abs(x.value), x.precision;
    var u := Unsigned(m, p);
    UnsignedRoundTrip(m, p);
    if x.value < 0 {
      assert ToString(x)[1..] == u;
    } else {
      assert ToString(x) == u;
    }
  }

  lemma UnsignedRoundTrip(m: nat, p: nat)
    ensures ParseUnsigned(Unsigned(m, p)) == Success(FixedPoint(m, p))
  {
    if p == 0 {
      WholeRoundTrip(m);
    } else {
      FractionRoundTrip(m, p);
    }
  }

  lemma WholeRoundTrip(m: nat)
    ensures ParseUnsigned(NatToString(m)) == Success(FixedPoint(m, 0))
  {
    var s := NatToString(m);
    PointIndexOfAllDigits(s);
    assert s[..|s|] + "" == s;
    NatToStringValue(m);
  }

  lemma FractionRoundTrip(m: nat, p: nat)
    requires p > 0
    ensures ParseUnsigned(Unsigned(m, p)) == Success(FixedPoint(m, p))
  {
    var P := Pow10(p);
    DivModBounds(m, P);
    var whole := NatToString(m / P);
    var fraction := FractionDigits(m % P, p);
    assert Unsigned(m, p) == whole + "." + fraction;
    ParseUnsignedOfSplit(whole, fraction);
    DigitsValueAppend(whole, fraction);
    NatToStringValue(m / P);
  }

  lemma ParseUnsignedOfSplit(whole: string, fraction: string)
    requires |whole| >= 1 && |fraction| >= 1 && AllDigits(whole) && AllDigits(fraction)
    ensures AllDigits(whole + fraction)
    ensures ParseUnsigned(whole + "." + fraction) == Success(FixedPoint(DigitsValue(whole + fraction), |fraction|))
  {
    var b := whole + "." + fraction;
    PointSplit(whole, fraction);
    var k := PointIndex(b);
    assert k < |b| && b[..k] == whole && b[k + 1..] == fraction;
    AllDigitsAppend(whole, fraction);
  }

  // ---------------------------------------------------------------------
  // The assertions of the source's tests

  lemma ToStringWholeExample()
    ensures ToString(FixedPoint(123, 0)) == "123"
  {
    assert NatToString(12) == "12";
  }

  lemma ToStringFractionExample()
    ensures ToString(FixedPoint(123, 2)) == "1.23"
  {
    Unsigned123();
  }

  lemma ToStringNegativeExample()
    ensures ToString(FixedPoint(-123, 2)) == "-1.23"
  {
    Unsigned123();
    assert ToString(FixedPoint(-123, 2)) == "-" + Unsigned(123, 2);
    assert "-" + "1.23" == "-1.23";
  }

  lemma ToStringPaddedExample()
    ensures ToString(FixedPoint(5, 3)) == "0.005"
  {
    assert Pow10(3) == 1000;
    assert NatToString(5) == "5";
    assert FractionDigits(5, 3) == "005" by {
      assert PadZeros("5", 3) == Zeros(2) + "5";
    }
    assert Unsigned(5, 3) == "0" + "." + "005";
  }

  lemma FromStringExamples()
    ensures FromString("1.23") == Success(FixedPoint(123, 2))
    ensures FromString("123") == Success(FixedPoint(123, 0))
  {
    ToStringFractionExample();
    FromStringToString(FixedPoint(123, 2));
    ToStringWholeExample();
    FromStringToString(FixedPoint(123, 0));
  }

  /** Leading zeros, which to_string never writes, are read and ignored. */
  lemma LeadingZerosExample()
    ensures FromString("007") == Success(FixedPoint(7, 0))
  {
    FromStringAccepts("007");
    DigitsOnlyOfDigits("007");
    assert DigitsValue("007") == 7 by {
      assert "007"[..2] == "00" && "00"[..1] == "0";
    }
  }

  /** An explicit plus sign reads as a positive value. */
  lemma PlusSignExample()
    ensures FromString("+5") == Success(FixedPoint(5, 0))
  {
    FromStringAccepts("+5");
    assert WellFormedUnsigned("+5"[1..]) by {
      assert "+5"[1..] == "5";
    }
    assert DigitsOnly("+5") == "5";
  }

  /** A minus sign negates the digits after it. */
  lemma MinusSignExample()
    ensures FromString("-12") == Success(FixedPoint(-12, 0))
  {
    FromStringAccepts("-12");
    assert WellFormedUnsigned("-12"[1..]) by {
      assert "-12"[1..] == "12";
    }
    assert DigitsOnly("-12") == "12";
    assert DigitsValue("12") == 12 by {
      assert "12"[..1] == "1";
    }
  }

  /** A point needs digits on both sides, and a sign needs digits after it. */
  lemma FromStringRejects()
    ensures FromString("1.").Failure? && FromString(".5").Failure? && FromString("-").Failure?
  {
    FromStringAccepts("1.");
    assert !IsDigit("1."[1]);
    FromStringAccepts(".5");
    assert !IsDigit(".5"[0]);
    FromStringAccepts("-");
    assert "-"[1..] == [];
  }

  /** The stream operators write and read this same text: "4.56" reads as 456 at precision 2. */
  lemma StreamExamples()
    ensures ToString(FixedPoint(123, 2)) == "1.23"
    ensures FromString("4.56") == Success(FixedPoint(456, 2))
  {
    ToStringFractionExample();
    Unsigned456();
    assert ToString(FixedPoint(456, 2)) == "4.56";
    FromStringToString(FixedPoint(456, 2));
  }

  lemma Unsigned123()
    ensures Unsigned(123, 2) == "1.23"
  {
    assert Pow10(2) == 100;
    assert NatToString(23) == "23";
    assert FractionDigits(23, 2) == "23";
    assert NatToString(1) == "1";
    assert Unsigned(123, 2) == "1" + "." + "23";
  }

  lemma Unsigned456()
    ensures Unsigned(456, 2) == "4.56"
  {
    assert Pow10(2) == 100;
    assert NatToString(56) == "56";
    assert FractionDigits(56, 2) == "56";
    assert NatToString(4) == "4";
    assert Unsigned(456, 2) == "4" + "." + "56";
  }
}
