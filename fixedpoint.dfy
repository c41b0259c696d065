/**
 * The fixed-point decimal value type: a pair (value, precision) standing for
 * the rational number value / 10^precision, with the arithmetic and
 * comparison operations of the `fputil` namespace and the operators
 * derived from them.
 *
 * `value` is an unbounded integer: the native width of the mantissa is not
 * part of this model.
 */
module FixedPointNumber {
  import opened Wrappers
  import opened Arithmetic

  /** `FixedPoint(value, precision)` stores exactly the two numbers it is given. */
  datatype FixedPoint = FixedPoint(value: int, precision: nat)

  /** The failure `divide` reports (a std::domain_error in the source). */
  datatype Error = DivisionByZero

  /** The rational number a fixed-point pair stands for. */
  ghost function RealValue(x: FixedPoint): real
  {
    Ratio(x.value, Pow10(x.precision))
  }

  // ---------------------------------------------------------------------
  // Construction

  /** The default constructor `FixedPoint()`. */
  function Default(): (r: FixedPoint)
    ensures RealValue(r) == 0.0
  {
    FixedPoint(0, 0)
  }

  // ---------------------------------------------------------------------
  // Scale alignment

  /** x rewritten at precision p >= x.precision: its value times 10^(p - x.precision). */
  function Align(x: FixedPoint, p: nat): (r: FixedPoint)
    requires x.precision <= p
    ensures r.precision == p
    ensures RealValue(r) == RealValue(x)
  {
    var k := p - x.precision;
    Pow10Add(k, x.precision);
    RatioScale(x.value, Pow10(k), Pow10(x.precision));
    FixedPoint(x.value * Pow10(k), p)
  }

  // ---------------------------------------------------------------------
  // Arithmetic

  /** fputil::add and operator+: both operands aligned to the larger precision. */
  function Add(a: FixedPoint, b: FixedPoint): (r: FixedPoint)
    ensures r.precision == Max(a.precision, b.precision)
    ensures RealValue(r) == RealValue(a) + RealValue(b)
  {
    var p := Max(a.precision, b.precision);
    var x, y := Align(a, p), Align(b, p);
    RatioSum(x.value, y.value, Pow10(p));
    FixedPoint(x.value + y.value, p)
  }

  /** fputil::subtract and operator-: both operands aligned to the larger precision. */
  function Subtract(a: FixedPoint, b: FixedPoint): (r: FixedPoint)
    ensures r.precision == Max(a.precision, b.precision)
    ensures RealValue(r) == RealValue(a) - RealValue(b)
  {
    var p := Max(a.precision, b.precision);
    var x, y := Align(a, p), Align(b, p);
    RatioDifference(x.value, y.value, Pow10(p));
    FixedPoint(x.value - y.value, p)
  }

  /** fputil::multiply: values multiply and precisions add, without alignment. */
  function Multiply(a: FixedPoint, b: FixedPoint): (r: FixedPoint)
    ensures r.precision == a.precision + b.precision
    ensures RealValue(r) == RealValue(a) * RealValue(b)
  {
    Pow10Add(a.precision, b.precision);
    RatioProduct(a.value, b.value, Pow10(a.precision), Pow10(b.precision));
    FixedPoint(a.value * b.value, a.precision + b.precision)
  }

  /** The exact quotient a / b, times 10^s (0 when b is zero). */
  ghost function ExactQuotient(a: FixedPoint, b: FixedPoint, s: nat): real
  {
    if b.value == 0 then 0.0
    else
      RatioNonzero(b.value, Pow10(b.precision));
      RealValue(a) / RealValue(b) * Pow10(s) as real
  }

  /**
   * fputil::divide, to precision min(a.precision + guardDigits, maxPrecision):
   * the exact quotient a / b at that precision, truncated toward zero.
   * `maxPrecision` is fputil::MAX_PRECISION and `guardDigits` the number of
   * extra digits the implementation keeps; both are parameters because the
   * source does not fix them.
   */
  function Divide(a: FixedPoint, b: FixedPoint, maxPrecision: nat, guardDigits: nat): (r: Result<FixedPoint, Error>)
    ensures r.Failure? <==> b.value == 0
    ensures r.Failure? ==> r.error == DivisionByZero
    ensures r.Success? ==> r.value.precision == Min(a.precision + guardDigits, maxPrecision)
    ensures r.Success? ==> r.value.precision <= maxPrecision
    ensures r.Success? ==> TowardZero(ExactQuotient(a, b, r.value.precision), r.value.value)
  {
    if b.value == 0 then
      Failure(DivisionByZero)
    else
      var s := Min(a.precision + guardDigits, maxPrecision);
      Success(FixedPoint(QuotientAtScale(a, b, s), s))
  }

  /**
   * a / b at precision s: the dividend's value times 10^(b.precision + s),
   * divided with truncation by the divisor's value times 10^a.precision.
   */
  function QuotientAtScale(a: FixedPoint, b: FixedPoint, s: nat): (q: int)
    requires b.value != 0
    ensures TowardZero(ExactQuotient(a, b, s), q)
  {
    var pa, pb, ps := Pow10(a.precision), Pow10(b.precision), Pow10(s);
    RatioQuotient(a.value, b.value, pa, pb, ps);
    var n, d := a.value * (pb * ps), b.value * pa;
    assert ExactQuotient(a, b, s) == Ratio(n, d);
    TruncDiv(n, d)
  }

  // ---------------------------------------------------------------------
  // Conversion

  /** fputil::to_int: the represented value truncated toward zero. */
  function ToInt(x: FixedPoint): (r: int)
    ensures TowardZero(RealValue(x), r)
  {
    TruncDiv(x.value, Pow10(x.precision))
  }

  // ---------------------------------------------------------------------
  // Comparison: both operands aligned to the larger precision, then the
  // values compared.

  /** fputil::equals and operator==. */
  predicate Equals(a: FixedPoint, b: FixedPoint)
    ensures Equals(a, b) <==> RealValue(a) == RealValue(b)
  {
    var p := Max(a.precision, b.precision);
    RatioOrder(Align(a, p).value, Align(b, p).value, Pow10(p));
    Align(a, p).value == Align(b, p).value
  }

  /** fputil::less_than and operator<. */
  predicate LessThan(a: FixedPoint, b: FixedPoint)
    ensures LessThan(a, b) <==> RealValue(a) < RealValue(b)
  {
    var p := Max(a.precision, b.precision);
    RatioOrder(Align(a, p).value, Align(b, p).value, Pow10(p));
    Align(a, p).value < Align(b, p).value
  }

  /** fputil::greater_than and operator>. */
  predicate GreaterThan(a: FixedPoint, b: FixedPoint)
    ensures GreaterThan(a, b) <==> RealValue(a) > RealValue(b)
  {
    var p := Max(a.precision, b.precision);
    RatioOrder(Align(a, p).value, Align(b, p).value, Pow10(p));
    Align(a, p).value > Align(b, p).value
  }

  /** operator!=, derived from equals. */
  predicate NotEqual(a: FixedPoint, b: FixedPoint)
    ensures NotEqual(a, b) <==> RealValue(a) != RealValue(b)
  {
    !Equals(a, b)
  }

  /** operator<=, derived from greater_than. */
  predicate AtMost(a: FixedPoint, b: FixedPoint)
    ensures AtMost(a, b) <==> RealValue(a) <= RealValue(b)
  {
    !GreaterThan(a, b)
  }

  /** operator>=, derived from less_than. */
  predicate AtLeast(a: FixedPoint, b: FixedPoint)
    ensures AtLeast(a, b) <==> RealValue(a) >= RealValue(b)
  {
    !LessThan(a, b)
  }

  // ---------------------------------------------------------------------
  // Properties

  /** Exactly one of less_than, equals and greater_than holds. */
  lemma Trichotomy(a: FixedPoint, b: FixedPoint)
    ensures LessThan(a, b) || Equals(a, b) || GreaterThan(a, b)
    ensures !(LessThan(a, b) && Equals(a, b))
    ensures !(LessThan(a, b) && GreaterThan(a, b))
    ensures !(Equals(a, b) && GreaterThan(a, b))
  {
  }

  /** equals is an equivalence relation, less_than is transitive, and the derived operators agree. */
  lemma ComparisonLaws(a: FixedPoint, b: FixedPoint, c: FixedPoint)
    ensures Equals(a, a)
    ensures Equals(a, b) ==> Equals(b, a)
    ensures Equals(a, b) && Equals(b, c) ==> Equals(a, c)
    ensures LessThan(a, b) && LessThan(b, c) ==> LessThan(a, c)
    ensures AtMost(a, b) <==> LessThan(a, b) || Equals(a, b)
    ensures AtLeast(a, b) <==> GreaterThan(a, b) || Equals(a, b)
  {
  }

  /** Zero equals zero at every precision. */
  lemma ZeroAtAnyPrecision(p: nat)
    ensures Equals(Default(), FixedPoint(0, p))
  {
    RatioOrder(0, 0, Pow10(p));
  }

  /** On operands of equal precision, add and subtract act on the values alone and keep the precision. */
  lemma SamePrecisionArithmetic(a: FixedPoint, b: FixedPoint)
    requires a.precision == b.precision
    ensures Add(a, b) == FixedPoint(a.value + b.value, a.precision)
    ensures Subtract(a, b) == FixedPoint(a.value - b.value, a.precision)
  {
    assert Pow10(0) == 1;
    assert Align(a, a.precision) == a;
    assert Align(b, a.precision) == b;
  }

  /** subtract undoes add, on the represented value and, when a is the finer operand, on the stored pair. */
  lemma SubtractUndoesAdd(a: FixedPoint, b: FixedPoint)
    ensures Equals(Subtract(Add(a, b), b), a)
    ensures a.precision >= b.precision ==> Subtract(Add(a, b), b) == a
  {
    if a.precision >= b.precision {
      assert Pow10(0) == 1;
      assert Align(a, a.precision) == a;
    }
  }

  lemma ConstructorExamples()
    ensures Default().value == 0 && Default().precision == 0
  {
  }

  lemma ArithmeticExamples()
    ensures Add(FixedPoint(123, 2), FixedPoint(456, 2)) == FixedPoint(579, 2)
    ensures Subtract(FixedPoint(456, 2), FixedPoint(123, 2)) == FixedPoint(333, 2)
    ensures Multiply(FixedPoint(123, 2), FixedPoint(456, 2)) == FixedPoint(56088, 4)
    ensures ToInt(FixedPoint(123, 0)) == 123
    ensures ToInt(FixedPoint(123, 2)) == 1
    ensures ToInt(FixedPoint(-123, 2)) == -1
  {
    SamePrecisionArithmetic(FixedPoint(123, 2), FixedPoint(456, 2));
    SamePrecisionArithmetic(FixedPoint(456, 2), FixedPoint(123, 2));
    assert Pow10(2) == 100;
  }

  lemma ComparisonExamples()
    ensures Equals(FixedPoint(123, 2), FixedPoint(123, 2))
    ensures !Equals(FixedPoint(123, 2), FixedPoint(456, 2))
    ensures LessThan(FixedPoint(123, 2), FixedPoint(456, 2))
    ensures !LessThan(FixedPoint(456, 2), FixedPoint(123, 2))
    ensures GreaterThan(FixedPoint(456, 2), FixedPoint(123, 2))
    ensures !GreaterThan(FixedPoint(123, 2), FixedPoint(456, 2))
    ensures NotEqual(FixedPoint(123, 2), FixedPoint(456, 2))
    ensures AtMost(FixedPoint(123, 2), FixedPoint(456, 2))
    ensures AtLeast(FixedPoint(456, 2), FixedPoint(123, 2))
    ensures Equals(FixedPoint(0, 0), FixedPoint(0, 3))
  {
    assert Pow10(2) == 100;
    assert Pow10(3) == 1000;
  }
}
