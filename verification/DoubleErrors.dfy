/** How far the double that is read for a number can be from what its text denotes: each rounding along
    the way adds at most one part in two to the 53rd. */
module DoubleErrors {
  import opened Bytes
  import opened CText
  import opened Reals
  import opened Doubles
  import opened JsonNumber
  import opened JsonDouble

  // ---------- after k roundings ----------

  /** One part in two to the 53rd. */
  const ULP: real := 1.0 / 9_007_199_254_740_992.0

  /** The factors by which k roundings can lower or raise a number. */
  function Least(k: nat): (f: real)
    ensures 0.0 < f <= 1.0
  {
    if k == 0 then 1.0 else Shrinks(Least(k - 1)); Times(1.0 - ULP, Least(k - 1))
  }

  function Most(k: nat): (f: real)
    ensures f >= 1.0
  {
    if k == 0 then 1.0 else Widens(Most(k - 1)); Times(1.0 + ULP, Most(k - 1))
  }

  lemma {:induction false} Shrinks(f: real)
    requires 0.0 < f <= 1.0
    ensures 0.0 < Times(1.0 - ULP, f) <= 1.0
  {}

  lemma {:induction false} Widens(f: real)
    requires f >= 1.0
    ensures Times(1.0 + ULP, f) >= 1.0
  {}

  /** y can be what k roundings make of a non-negative x. */
  predicate Within(y: real, x: real, k: nat) {
    x >= 0.0 && Times(Least(k), x) <= y <= Times(Most(k), x)
  }

  /** Zero, or not too small for rounding by parts. */
  predicate Normal(x: real) {
    x == 0.0 || x >= Power(2, -1022)
  }

  lemma {:induction false} WithinNone(x: real)
    requires x >= 0.0
    ensures Within(x, x, 0)
  {
    TimesOne(x);
  }

  lemma {:induction false} WithinPositive(y: real, x: real, k: nat)
    requires Within(y, x, k)
    ensures y >= 0.0
  {
    if x > 0.0 {
      TimesPositive(Least(k), x);
    }
  }

  lemma {:induction false} RoundedParts(x: real)
    requires x >= 0.0 && Normal(x)
    ensures Times(1.0 - ULP, x) <= Rounded(x) <= Times(1.0 + ULP, x)
  {
    hide Power, Rounded;
    RoundedNone();
    if x > 0.0 {
      RelativeError(x);
      ErrorParts(Rounded(x), x);
    }
  }

  lemma {:induction false} ErrorParts(y: real, x: real)
    requires Times(TWO53 as real, Abs(y - x)) <= x
    ensures Times(1.0 - ULP, x) <= y <= Times(1.0 + ULP, x)
  {}

  /** One more rounding. */
  lemma {:induction false} RoundStep(y: real, x: real, k: nat)
    requires Within(y, x, k) && Normal(y)
    ensures Within(Rounded(y), x, k + 1)
  {
    WithinPositive(y, x, k);
    RoundedParts(y);
    assert Least(k + 1) == Times(1.0 - ULP, Least(k)) && Most(k + 1) == Times(1.0 + ULP, Most(k));
    hide Rounded, Times, Least, Most, Normal;
    ThreeTimes(1.0 - ULP, Least(k), x);
    ThreeTimes(1.0 + ULP, Most(k), x);
    FactorOrder(1.0 - ULP, Times(Least(k), x), y);
    FactorOrder(1.0 + ULP, y, Times(Most(k), x));
  }

  lemma {:induction false} FactorOrder(c: real, x: real, y: real)
    requires c > 0.0 && x <= y
    ensures Times(c, x) <= Times(c, y)
  {
    TimesOrder(x, y, c);
    Swapped(x, c);
    Swapped(y, c);
  }

  /** Exact multiplication and exact addition round nothing. */
  lemma {:induction false} ScaleStep(c: real, y: real, x: real, k: nat)
    requires c > 0.0 && Within(y, x, k)
    ensures Within(Times(c, y), Times(c, x), k)
  {
    hide Times, Least, Most;
    TimesBy(c, Least(k), x);
    TimesBy(c, Most(k), x);
    Swapped(c, x);
    FactorOrder(c, Times(Least(k), x), y);
    FactorOrder(c, y, Times(Most(k), x));
    if x > 0.0 {
      TimesPositive(c, x);
    } else {
      TimesNone(c);
    }
  }

  lemma {:induction false} TimesNone(c: real)
    ensures Times(c, 0.0) == 0.0
  {}

  lemma {:induction false} AddStep(d: real, y: real, x: real, k: nat)
    requires d >= 0.0 && Within(y, x, k)
    ensures Within(y + d, x + d, k)
  {
    hide Least, Most;
    PartOf(Least(k), x, d);
    PartOf(Most(k), x, d);
  }

  lemma {:induction false} PartOf(f: real, x: real, d: real)
    requires d >= 0.0
    ensures f <= 1.0 ==> Times(f, x + d) <= Times(f, x) + d
    ensures f >= 1.0 ==> Times(f, x + d) >= Times(f, x) + d
  {
    assert f * (x + d) == f * x + f * d;
    if f <= 1.0 {
      assert (1.0 - f) * d >= 0.0;
    }
    if f >= 1.0 {
      assert (f - 1.0) * d >= 0.0;
    }
  }

  /** A product of two numbers, of which the second was rounded once. */
  lemma {:induction false} ProductStep(y: real, x: real, k: nat, p: real, q: real)
    requires Within(y, x, k) && q > 0.0 && Times(1.0 - ULP, q) <= p <= Times(1.0 + ULP, q)
    ensures Within(Times(y, p), Times(x, q), k + 1)
  {
    assert Least(k + 1) == Times(1.0 - ULP, Least(k)) && Most(k + 1) == Times(1.0 + ULP, Most(k));
    WithinPositive(y, x, k);
    TimesPositive(1.0 - ULP, q);
    hide Least, Most;
    ProductOrder(Times(Least(k), x), y, Times(1.0 - ULP, q), p);
    ProductOrder(y, Times(Most(k), x), p, Times(1.0 + ULP, q));
    FourTimes(Least(k), x, 1.0 - ULP, q);
    FourTimes(Most(k), x, 1.0 + ULP, q);
    NotNegative(x, q);
    NotNegative(Least(k), x);
  }

  lemma {:induction false} NotNegative(x: real, y: real)
    requires x >= 0.0 && y >= 0.0
    ensures Times(x, y) >= 0.0
  {}

  lemma {:induction false} ProductOrder(a: real, b: real, c: real, d: real)
    requires a <= b && c <= d && c >= 0.0 && b >= 0.0
    ensures Times(a, c) <= Times(b, d)
  {
    assert (b - a) * c >= 0.0;
    assert b * (d - c) >= 0.0;
    assert (b - a) * c == b * c - a * c && b * (d - c) == b * d - b * c;
  }

  lemma {:induction false} FourTimes(f: real, x: real, g: real, q: real)
    ensures Times(Times(f, x), Times(g, q)) == Times(Times(g, f), Times(x, q))
  {
    assert (f * x) * (g * q) == (g * f) * (x * q);
  }

  // ---------- the digits ----------

  lemma {:induction false} OneIsNormal()
    ensures Power(2, -1022) <= 1.0
  {
    PowerNone(2);
    PowerGrows(2, -1022, 0);
  }

  /** Zero, or at least one. */
  predicate Counts(x: real) {
    x == 0.0 || x >= 1.0
  }

  lemma {:induction false} CountsRounded(x: real)
    requires Counts(x)
    ensures Counts(Rounded(x)) && Normal(x)
  {
    OneIsNormal();
    IntegersStay(1);
    RoundedIsDouble(1.0);
    hide Rounded, IsDouble, Power;
    RoundedNone();
    if x >= 1.0 {
      RoundedStaysAbove(x, 1.0);
    }
  }

  /** Each step of a digit loop rounds twice. */
  lemma {:induction false} NextWithin(n: real, x: real, k: nat, d: nat)
    requires Counts(n) && Within(n, x, k)
    ensures Counts(NextDouble(n, d)) && Within(NextDouble(n, d), Times(10.0, x) + d as real, k + 2)
  {
    var m := Times(10.0, n);
    assert Counts(m);
    CountsRounded(m);
    CountsRounded(Rounded(m) + d as real);
    hide Rounded, Within, Times, Normal;
    ScaleStep(10.0, n, x, k);
    RoundStep(m, Times(10.0, x), k);
    AddStep(d as real, Rounded(m), Times(10.0, x), k + 1);
    RoundStep(Rounded(m) + d as real, Times(10.0, x) + d as real, k + 1);
  }

  lemma {:induction false} DigitsWithin(t: bytes)
    requires AllDigits(t)
    ensures Counts(DigitsDouble(t)) && Within(DigitsDouble(t), DigitsValue(t) as real, 2 * |t|)
  {
    hide NextDouble, Within;
    if t == [] {
      WithinNone(0.0);
    } else {
      var front, d := t[..|t| - 1], t[|t| - 1] - ZERO;
      DigitsWithin(front);
      NextWithin(DigitsDouble(front), DigitsValue(front) as real, 2 * |front|, d);
      assert Times(10.0, DigitsValue(front) as real) + d as real == DigitsValue(t) as real;
    }
  }

  /** How often a decimal is rounded before the power of ten comes in: not at all up to 53 bits. */
  function DigitRoundings(d: Decimal): nat
    requires AllDigits(d.digits)
  {
    if DigitsValue(d.digits) <= TWO53 then 0 else 2 * |d.digits|
  }

  lemma {:induction false} MantissaWithin(d: Decimal)
    requires AllDigits(d.digits)
    ensures Counts(DigitsDouble(d.digits))
    ensures Within(DigitsDouble(d.digits), DigitsValue(d.digits) as real, DigitRoundings(d))
  {
    hide Within, DigitsDouble, DigitsValue;
    DigitsWithin(d.digits);
    if DigitsValue(d.digits) <= TWO53 {
      DigitsExact(d.digits);
      WithinNone(DigitsValue(d.digits) as real);
    }
  }

  // ---------- the number ----------

  lemma {:induction false} PowerIsDouble(e: int)
    requires e >= LEAST
    ensures IsDouble(Power(2, e))
  {
    TimesOne(Power(2, e));
    assert Represents(Power(2, e), 1, e);
  }

  /** The amount without its sign: rounded once more for the power of ten and once for the product. */
  lemma {:induction false} AmountWithin(m: real, x: real, k: nat, q: real)
    requires Counts(m) && Within(m, x, k) && q > 0.0 && Normal(q)
    ensures Within(Rounded(Times(m, Rounded(q))), Times(x, q), k + 2)
  {
    PowerIsDouble(-1022);
    RoundedParts(q);
    hide Rounded, Power, Within, IsDouble;
    RoundedStaysAbove(q, Power(2, -1022));
    ProductStep(m, x, k, Rounded(q), q);
    ProductNormal(m, Rounded(q));
    RoundStep(Times(m, Rounded(q)), Times(x, q), k + 1);
  }

  lemma {:induction false} ProductNormal(m: real, p: real)
    requires Counts(m) && p >= Power(2, -1022)
    ensures Normal(Times(m, p))
  {
    hide Power;
    if m >= 1.0 {
      TimesOrder(1.0, m, p);
      TimesOne(p);
    }
  }

  lemma {:induction false} ValueAmount(d: Decimal)
    requires AllDigits(d.digits)
    ensures var x := Times(DigitsValue(d.digits) as real, Power(10, d.exponent));
      x >= 0.0 && Value(d) == WithSign(d.negative, x) && Abs(Value(d)) == x
  {
    hide Power, DigitsValue;
    TimesPositive(DigitsValue(d.digits) as real, Power(10, d.exponent));
    SignedInt(d.negative, DigitsValue(d.digits));
    SignedProduct(d.negative, DigitsValue(d.digits) as real, Power(10, d.exponent));
    hide Times;
  }

  /** y has the sign of x, or is zero. */
  predicate SameSign(y: real, x: real) {
    (x >= 0.0 ==> y >= 0.0) && (x <= 0.0 ==> y <= 0.0)
  }

  lemma {:induction false} SignsAgree(negative: bool, y: real, x: real)
    requires x >= 0.0 && y >= 0.0 && (x == 0.0 ==> y == 0.0)
    ensures SameSign(WithSign(negative, y), WithSign(negative, x)) && Abs(WithSign(negative, y)) == y
  {}

  lemma {:induction false} WithinZero(y: real, k: nat)
    requires Within(y, 0.0, k)
    ensures y == 0.0
  {
    TimesNone(Least(k));
    TimesNone(Most(k));
  }

  lemma {:induction false} NormalPower(q: real)
    requires Power(2, -1022) <= q
    ensures Normal(q)
  {}

  lemma {:induction false} AmountOfDecimal(d: Decimal, q: real)
    requires AllDigits(d.digits) && Power(2, -1022) <= q
    ensures Within(Rounded(Times(DigitsDouble(d.digits), Rounded(q))), Times(DigitsValue(d.digits) as real, q),
                   DigitRoundings(d) + 2)
  {
    hide Power, Rounded, Times, DigitsDouble, DigitsValue, DigitRoundings, Within, AllDigits, Counts, Normal;
    MantissaWithin(d);
    NormalPower(q);
    AmountWithin(DigitsDouble(d.digits), DigitsValue(d.digits) as real, DigitRoundings(d), q);
  }

  /** With the same sign put before both. */
  lemma {:induction false} SignedWithin(negative: bool, y: real, x: real, k: nat)
    requires Within(y, x, k)
    ensures SameSign(WithSign(negative, y), WithSign(negative, x))
    ensures Within(Abs(WithSign(negative, y)), Abs(WithSign(negative, x)), k)
  {
    hide Times, Least, Most;
    WithinPositive(y, x, k);
    if x == 0.0 {
      WithinZero(y, k);
    }
    SignsAgree(negative, y, x);
  }

  /** The double of a decimal has its sign, and differs from it by no more than the roundings can do. */
  lemma {:induction false} DecimalWithin(d: Decimal)
    requires AllDigits(d.digits) && Power(2, -1022) <= Power(10, d.exponent)
    ensures SameSign(DoubleOf(d), Value(d)) && Within(Abs(DoubleOf(d)), Abs(Value(d)), DigitRoundings(d) + 2)
  {
    hide Power, Rounded, Times, DigitsDouble, DigitsValue, DigitRoundings, DoubleOf, Value, Within, SameSign, AllDigits;
    hide WithSign, Abs;
    DoubleIs(d);
    ValueAmount(d);
    AmountOfDecimal(d, Power(10, d.exponent));
    SignedWithin(d.negative, Rounded(Times(DigitsDouble(d.digits), Rounded(Power(10, d.exponent)))),
                 Times(DigitsValue(d.digits) as real, Power(10, d.exponent)), DigitRoundings(d) + 2);
  }

  /** What is read of any text, whether it is a number of the grammar or not, is within as many roundings
      as were made of the number that its digits denote. */
  lemma {:induction false} ReadsWithin(s: bytes, p: nat)
    requires p <= |s|
    requires Power(2, -1022) <= Power(10, ReadNumber(s, p).value.exponent)
    ensures var d := ReadNumber(s, p).value;
      SameSign(DoubleAt(s, p), Value(d)) && Within(Abs(DoubleAt(s, p)), Abs(Value(d)), DigitRoundings(d) + 2)
  {
    hide ReadNumber, Power, Value, DoubleOf, Within, SameSign;
    DecimalWithin(ReadNumber(s, p).value);
  }

  lemma {:induction false} AccumulatedExponent(n: NumberText)
    requires Grammatical(n)
    ensures Accumulated(n).exponent == ExpValue(n.exp) - |n.frac|
  {}

  /** A text of the grammar is read as a double within as many roundings of the number it denotes as the
      parser makes: two for the power of ten and the product, and two for each digit if the digits have
      more than 53 bits. The power of ten must not be subnormal. */
  lemma {:induction false} ReadsNear(n: NumberText, s: bytes, p: nat)
    requires Grammatical(n) && At(s, p, Text(n)) && Stops(s, p + |Text(n)|)
    requires Power(2, -1022) <= Power(10, ExpValue(n.exp) - |n.frac|)
    ensures p <= |s| && SameSign(DoubleAt(s, p), Denotes(n))
    ensures Within(Abs(DoubleAt(s, p)), Abs(Denotes(n)), DigitRoundings(Accumulated(n)) + 2)
  {
    hide Grammatical, Value, DoubleOf, Power, Within, SameSign, DigitRoundings, Stops;
    hide AllDigits, Accumulated, ExpValue, Denotes, Text, At, ReadNumber, Least, Most, Times;
    AccumulatedExponent(n);
    ReadsDecimal(n, s, p);
    AccumulatedDenotes(n);
    DecimalWithin(Accumulated(n));
  }

  /** Two roundings change a number by less than three parts in two to the 53rd. */
  lemma {:induction false} TwoRoundings(y: real, x: real)
    requires Within(y, x, 2)
    ensures Times(TWO53 as real, Abs(y - x)) <= 3.0 * x
  {
    assert Least(2) == (1.0 - ULP) * (1.0 - ULP) && Most(2) == (1.0 + ULP) * (1.0 + ULP) by {
      assert Least(1) == 1.0 - ULP && Most(1) == 1.0 + ULP;
    }
  }

  /** If the digits have at most 53 bits, the difference is less than three parts in two to the 53rd. */
  lemma {:induction false} ReadsThreeParts(n: NumberText, s: bytes, p: nat)
    requires Grammatical(n) && At(s, p, Text(n)) && Stops(s, p + |Text(n)|)
    requires Power(2, -1022) <= Power(10, ExpValue(n.exp) - |n.frac|)
    requires DigitsValue(Accumulated(n).digits) <= TWO53
    ensures p <= |s|
    ensures Times(TWO53 as real, Abs(DoubleAt(s, p) - Denotes(n))) <= 3.0 * Abs(Denotes(n))
  {
    hide Grammatical, Power, Within, Stops, DoubleAt, Denotes, Text, Accumulated;
    ReadsNear(n, s, p);
    TwoRoundings(Abs(DoubleAt(s, p)), Abs(Denotes(n)));
  }
}
