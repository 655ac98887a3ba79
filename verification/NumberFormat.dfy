/** The text cJSON_print_number writes for a double, which is taken to be the exact real it holds: which
    format it chooses, what the text denotes, and how close that is. */
module NumberFormat {
  import opened Bytes
  import opened Reals
  import opened Doubles
  import opened JsonNumber

  // ---------- conversions ----------

  const INT_MIN := -0x8000_0000
  const INT_MAX := 0x7FFF_FFFF
  const DBL_EPSILON: real := 1.0 / 4503599627370496.0

  predicate FitsInt(n: int) {
    INT_MIN <= n <= INT_MAX
  }

  // ---------- which format ----------

  /** The test for "%d", on the item's int and double. */
  predicate PrintsAs(n: int, d: real) {
    Abs(n as real - d) <= DBL_EPSILON && INT_MIN as real <= d <= INT_MAX as real
  }

  datatype Format = Int | Integral | Scientific | Fixed

  /** "%d", "%.0f", "%e" or "%f". */
  function FormatOf(x: real): Format {
    if PrintsAs(Trunc(x), x) then Int
    else if Abs(x.Floor as real - x) <= DBL_EPSILON then Integral
    else if Abs(x) < MICRO || Abs(x) > 1_000_000_000.0 then Scientific
    else Fixed
  }

  /** Where the conversion to an int is defined the first test is met; elsewhere no int meets it. */
  lemma {:induction false} PrintsAsWhen(n: int, x: real)
    requires FitsInt(Trunc(x)) ==> n == Trunc(x)
    ensures PrintsAs(n, x) <==> FormatOf(x) == Int
    ensures PrintsAs(n, x) ==> n == Trunc(x) && FitsInt(n)
  {}

  lemma {:induction false} TruncDifference(x: real)
    ensures Trunc(x) as real - x == WithSign(x >= 0.0, Abs(x) - Abs(x).Floor as real)
  {}

  lemma {:induction false} FloorDifference(x: real)
    ensures x >= 0.0 || x.Floor as real == x ==> x.Floor as real - x == -(Abs(x) - Abs(x).Floor as real)
    ensures x < 0.0 && x.Floor as real != x ==> x.Floor as real - x == -(1.0 - (Abs(x) - Abs(x).Floor as real))
  {
    var y := -x;
    if x < 0.0 {
      if x.Floor as real == x {
        WholeIs(x, x.Floor);
      } else {
        assert y.Floor == -x.Floor - 1;
      }
    }
  }

  lemma {:induction false} RoundedDifference(r: real)
    requires r >= 0.0 && (IsDouble(r) || r >= 0.5)
    ensures Abs(Rounded(-r)) <= DBL_EPSILON <==> r <= DBL_EPSILON
  {
    hide Rounded, IsDouble;
    RoundedNegative(r);
    if IsDouble(r) {
      DoublesStay(r);
    } else {
      HalfIsDouble();
      RoundedStaysAbove(r, 0.5);
    }
  }

  lemma {:induction false} HalfIsDouble()
    ensures IsDouble(0.5)
  {
    PowerNone(2);
    PowerInverse(2, 1);
    Reciprocal(Power(2, -1), Power(2, 1));
    Swapped(Power(2, -1), Power(2, 1));
    TimesOne(0.5);
    hide Power, Times;
    UnitsAreDouble(0.5, 1, -1);
  }

  /** The differences that are tested against DBL_EPSILON: in doubles the one from the truncated number
      is exact, and rounding the one from the floor does not change the outcome. */
  lemma {:induction false} DifferencesRounded(x: real)
    requires IsDouble(x)
    ensures Rounded(Trunc(x) as real - x) == Trunc(x) as real - x
    ensures Abs(Rounded(x.Floor as real - x)) <= DBL_EPSILON <==> Abs(x.Floor as real - x) <= DBL_EPSILON
  {
    hide Rounded, IsDouble, Trunc;
    var y := Abs(x);
    var r := y - y.Floor as real;
    AbsIsDouble(x);
    FractionIsDouble(y);
    MissingIsDouble(y);
    TruncDifference(x);
    FloorDifference(x);
    DoublesStay(r);
    RoundedNegative(r);
    RoundedDifference(if x >= 0.0 || x.Floor as real == x then r else 1.0 - r);
  }

  // ---------- the digits ----------

  const MILLION := 1_000_000

  /** The last k decimal digits of n. */
  function Padded(n: nat, k: nat): (t: bytes)
    ensures |t| == k && AllDigits(t)
  {
    if k == 0 then [] else Padded(n / 10, k - 1) + [ZERO + n % 10]
  }

  /** k millionths, with six decimals. */
  function SixDecimals(negative: bool, k: nat, exp: ExpPart): (n: NumberText)
    requires exp.Exp? ==> AllDigits(exp.digits)
  {
    DigitsRoundTrip(k / MILLION);
    NumberText(negative, Digits(k / MILLION), Padded(k, 6), exp)
  }

  /** The exponent of "%e": a sign and at least two digits. */
  function ExponentPart(e: int): (x: ExpPart)
    ensures x.Exp? && AllDigits(x.digits)
  {
    var k := if e < 0 then -e else e;
    DigitsRoundTrip(k);
    Exp(LOWER_E, [if e < 0 then MINUS else PLUS], if k < 10 then [ZERO] + Digits(k) else Digits(k))
  }

  /** The seven digits "%e" shows, as an integer, and the power of ten of the first of them: rounding
      may carry into one more digit. */
  datatype Significant = Significant(digits: nat, exponent: int)

  function Significand(x: real): Significant
    requires x > 0.0
  {
    var e := Magnitude(10, x);
    TimesPositive(x, Power(10, 6 - e));
    var k := Nearest(Times(x, Power(10, 6 - e)));
    if k == 10 * MILLION then Significant(MILLION, e + 1) else Significant(k, e)
  }

  function ScientificText(x: real): NumberText
    requires x != 0.0
  {
    var s := Significand(Abs(x));
    SixDecimals(x < 0.0, s.digits, ExponentPart(s.exponent))
  }

  function FixedText(x: real): NumberText {
    SixDecimals(x < 0.0, Nearest(Abs(x) * MILLION as real), NoExp)
  }

  /** The text of a number. */
  function NumberOf(x: real): NumberText {
    match FormatOf(x)
    case Int => IntegerText(Trunc(x))
    case Integral => IntegerText(x.Floor)
    case Scientific => ScientificText(x)
    case Fixed => FixedText(x)
  }

  lemma {:induction false} NumberOfGrammatical(x: real)
    ensures Grammatical(NumberOf(x))
  {
    hide Grammatical, IntegerText, SixDecimals, Nearest, Significand, Accumulated, DigitsValue;
    IntegerTextIs(Trunc(x));
    IntegerTextIs(x.Floor);
    if FormatOf(x) == Scientific {
      SixDecimalsGrammatical(x < 0.0, Significand(Abs(x)).digits, ExponentPart(Significand(Abs(x)).exponent));
    } else if FormatOf(x) == Fixed {
      SixDecimalsGrammatical(x < 0.0, Nearest(Abs(x) * MILLION as real), NoExp);
    }
  }

  /** What the printer writes for a number. */
  function FormatNumber(x: real): (t: bytes)
    ensures t != [] && (IsDigit(t[0]) || t[0] == MINUS)
    ensures forall i :: 0 <= i < |t| ==> NumberChar(t[i])
  {
    NumberOfGrammatical(x);
    TextChars(NumberOf(x));
    Text(NumberOf(x))
  }

  lemma {:induction false} FormatNumberIs(x: real)
    ensures FormatOf(x) == Int ==> FormatNumber(x) == Text(IntegerText(Trunc(x)))
    ensures FormatOf(x) == Integral ==> FormatNumber(x) == Text(IntegerText(x.Floor))
    ensures FormatOf(x) == Scientific ==> FormatNumber(x) == Text(ScientificText(x))
    ensures FormatOf(x) == Fixed ==> FormatNumber(x) == Text(FixedText(x))
  {}

  lemma {:induction false} SixDecimalsGrammatical(negative: bool, k: nat, exp: ExpPart)
    requires exp.NoExp? || exists e :: exp == ExponentPart(e)
    ensures Grammatical(SixDecimals(negative, k, exp))
  {
    CanonicalDigits(k / MILLION);
    DigitsRoundTrip(k / MILLION);
  }

  // ---------- what the text denotes ----------

  lemma {:induction false} SixIs()
    ensures Power(10, 6) == MILLION as real
  {
    PowersOfTen();
    PowerIsNat(10, 6);
  }

  lemma {:induction false} SplitMillion(k: nat)
    ensures Times((k / MILLION) as real, MILLION as real) + (k % MILLION) as real == k as real
  {}

  /** n without its last k decimal digits. */
  function Shortened(n: nat, k: nat): nat {
    if k == 0 then n else Shortened(n / 10, k - 1)
  }

  lemma {:induction false} TenTimes(p: nat, q: nat, r: nat, d: nat, n: nat)
    requires p * q + r == n / 10 && d == n % 10 && r < p
    ensures (10 * p) * q + (10 * r + d) == n && 10 * r + d < 10 * p
  {
    assert (10 * p) * q == 10 * (p * q);
  }

  lemma {:induction false} PaddedValue(n: nat, k: nat)
    ensures DigitsValue(Padded(n, k)) < NatPower(10, k)
    ensures NatPower(10, k) * Shortened(n, k) + DigitsValue(Padded(n, k)) == n
  {
    if k == 0 {
    } else {
      var t, p := Padded(n, k), NatPower(10, k - 1);
      PaddedValue(n / 10, k - 1);
      assert t[..|t| - 1] == Padded(n / 10, k - 1);
      TenTimes(p, Shortened(n / 10, k - 1), DigitsValue(Padded(n / 10, k - 1)), n % 10, n);
    }
  }

  lemma {:induction false} SixDigits(n: nat)
    ensures DigitsValue(Padded(n, 6)) == n % MILLION
  {
    hide NatPower, Padded, DigitsValue, Shortened;
    PaddedValue(n, 6);
    PowersOfTen();
    Remainder(n, Shortened(n, 6), DigitsValue(Padded(n, 6)));
  }

  lemma {:induction false} PowersOfTen()
    ensures NatPower(10, 6) == MILLION && NatPower(10, 10) == 10_000 * MILLION
  {
    assert NatPower(10, 3) == 1000;
    assert NatPower(10, 6) == MILLION;
    assert NatPower(10, 8) == 100 * MILLION;
  }

  lemma {:induction false} Remainder(n: nat, q: nat, r: nat)
    requires MILLION * q + r == n && r < MILLION
    ensures n % MILLION == r
  {}

  /** What the parser takes from six decimals. */
  lemma {:induction false} SixDecimalsTaken(negative: bool, k: nat, exp: ExpPart)
    requires (exp.Exp? ==> AllDigits(exp.digits)) && Grammatical(SixDecimals(negative, k, exp))
    ensures var d := Accumulated(SixDecimals(negative, k, exp));
      d.negative == negative && d.exponent == ExpValue(exp) - 6 && DigitsValue(d.digits) == k
  {
    hide DigitsValue, Power, Times, AllDigits, Grammatical, IntDigits, ExpValue, Digits;
    var n := SixDecimals(negative, k, exp);
    var i := IntDigits(n);
    DigitsRoundTrip(k / MILLION);
    IntDigitsValue(n);
    SixDigits(k);
    AllDigitsConcat(i, n.frac);
    DigitsValueConcat(i, n.frac);
    SixIs();
    SplitMillion(k);
  }

  lemma {:induction false} ValueIs(d: Decimal, k: nat)
    requires AllDigits(d.digits) && DigitsValue(d.digits) == k
    ensures Value(d) == WithSign(d.negative, Times(k as real, Power(10, d.exponent)))
  {}

  lemma {:induction false} SixDecimalsDenote(negative: bool, k: nat, exp: ExpPart)
    requires (exp.Exp? ==> AllDigits(exp.digits)) && Grammatical(SixDecimals(negative, k, exp))
    ensures Denotes(SixDecimals(negative, k, exp))
      == WithSign(negative, Times(k as real, Power(10, ExpValue(exp) - 6)))
  {
    hide Denotes, Value, SixDecimals, Accumulated, WithSign, Times, Power;
    SixDecimalsTaken(negative, k, exp);
    AccumulatedDenotes(SixDecimals(negative, k, exp));
    ValueIs(Accumulated(SixDecimals(negative, k, exp)), k);
  }

  lemma {:induction false} LeadingZero(k: nat)
    requires k < 10
    ensures DigitsValue([ZERO] + Digits(k)) == k
  {
    var t := [ZERO, ZERO + k];
    assert t[..1] == [ZERO] && [ZERO][..0] == [];
    assert DigitsValue([ZERO]) == 0;
    assert [ZERO] + Digits(k) == t;
  }

  lemma {:induction false} ExponentPartValue(e: int)
    ensures ExpValue(ExponentPart(e)) == e
  {
    var k := if e < 0 then -e else e;
    DigitsRoundTrip(k);
    if k < 10 {
      LeadingZero(k);
    }
    hide DigitsValue, Digits, AllDigits;
  }

  lemma {:induction false} IntegerDenotes(m: int)
    ensures Grammatical(IntegerText(m)) && Denotes(IntegerText(m)) == m as real
  {
    hide Denotes, Value, Accumulated, Times, Power;
    var k := if m < 0 then -m else m;
    IntegerTextIs(m);
    AccumulatedDenotes(IntegerText(m));
    ValueIs(Accumulated(IntegerText(m)), k);
    PowerNone(10);
    TimesOne(k as real);
  }

  // ---------- how close that is ----------

  /** The number the text shows. */
  function Shown(x: real): real {
    NumberOfGrammatical(x);
    Denotes(NumberOf(x))
  }

  /** How many units of the last digit shown make one. */
  function Scale(x: real): (u: real)
    ensures u > 0.0
  {
    match FormatOf(x)
    case Scientific => Power(10, 6 - Magnitude(10, Abs(x)))
    case Fixed => Power(10, 6)
    case _ => 1.0
  }

  /** The seven digits of "%e", and the rounding behind them. */
  lemma {:induction false} SignificandIs(x: real)
    requires x > 0.0
    ensures var s, e := Significand(x), Magnitude(10, x); var u := Power(10, 6 - e);
      && MILLION <= s.digits < 10 * MILLION
      && Times(s.digits as real, Power(10, s.exponent - 6)) == Times(Nearest(Times(x, u)) as real, Power(10, e - 6))
  {
    var e := Magnitude(10, x);
    var u := Power(10, 6 - e);
    MagnitudeIs(10, x);
    PowerStep(10, e);
    Bounds(Power(10, e), x, u);
    TenTotal(e);
    var k := Nearest(Times(x, u));
    if k == 10 * MILLION {
      PowerStep(10, e - 6);
      TimesBy(10.0, MILLION as real, Power(10, e - 6));
      assert Times(10.0, MILLION as real) == (10 * MILLION) as real;
    }
  }

  lemma {:induction false} Bounds(a: real, x: real, u: real)
    requires a <= x < Times(10.0, a) && u > 0.0
    ensures Times(a, u) <= Times(x, u) < 10.0 * Times(a, u)
  {
    TimesBy(10.0, a, u);
    TimesOrder(a, x, u);
    TimesOrder(x, Times(10.0, a), u);
  }

  lemma {:induction false} TenTotal(e: int)
    ensures Times(Power(10, e), Power(10, 6 - e)) == MILLION as real
  {
    SixIs();
    PowerTimes(10, e, 6 - e);
  }

  /** The amount shown, without its sign: the nearest number of units. */
  function ShownAmount(x: real): real {
    var u := Times(Abs(x), Scale(x));
    match FormatOf(x)
    case Scientific => Times(Nearest(u) as real, Power(10, Magnitude(10, Abs(x)) - 6))
    case _ => Times(Nearest(u) as real, Power(10, -6))
  }

  lemma {:induction false} ScientificShown(x: real)
    requires FormatOf(x) == Scientific
    ensures Shown(x) == WithSign(x < 0.0, ShownAmount(x))
  {
    hide Denotes, Value, Significand, Magnitude, Power, Times, Nearest, WithSign;
    var s := Significand(Abs(x));
    SignificandIs(Abs(x));
    NumberOfGrammatical(x);
    SixDecimalsDenote(x < 0.0, s.digits, ExponentPart(s.exponent));
    ExponentPartValue(s.exponent);
  }

  lemma {:induction false} FixedShown(x: real)
    requires FormatOf(x) == Fixed
    ensures Shown(x) == WithSign(x < 0.0, ShownAmount(x))
  {
    hide Denotes, Value, WithSign, Nearest, Power, Magnitude, SixDecimals;
    var k := Nearest(Abs(x) * MILLION as real);
    SixIs();
    NumberOfGrammatical(x);
    SixDecimalsDenote(x < 0.0, k, NoExp);
  }

  predicate WholeUnits(x: real, u: real) {
    Times(Abs(x), u).Floor as real == Times(Abs(x), u)
  }

  lemma {:induction false} NearestUnits(x: real, u: real, v: real)
    requires Times(u, v) == 1.0 && u > 0.0 && v > 0.0
    ensures var y := Times(Nearest(Times(Abs(x), u)) as real, v); var z := WithSign(x < 0.0, y);
      Times(Abs(z - x), u) <= 0.5 && (z == x <==> WholeUnits(x, u))
  {
    hide Times;
    var k := Nearest(Times(Abs(x), u));
    TimesPositive(Abs(x), u);
    TimesPositive(k as real, v);
    RoundedTo(Abs(x), k, u, v);
    SignedAbs(x, Times(k as real, v));
  }

  lemma {:induction false} ScientificNotZero(x: real)
    requires FormatOf(x) == Scientific
    ensures Abs(x) > 0.0
  {}

  lemma {:induction false} WholeIs(x: real, n: int)
    ensures x == n as real ==> x.Floor == n && (-x).Floor == -n
  {}

  lemma {:induction false} WholeOnes(x: real)
    ensures WholeUnits(x, 1.0) <==> x.Floor as real == x
    ensures Trunc(x) as real == x <==> x.Floor as real == x
  {
    TimesOne(Abs(x));
    WholeIs(x, x.Floor);
    WholeIs(-x, (-x).Floor);
  }

  lemma {:induction false} IntShown(x: real)
    requires FormatOf(x) == Int || FormatOf(x) == Integral
    ensures Times(Abs(Shown(x) - x), 1.0) <= 0.5
    ensures Shown(x) == x <==> WholeUnits(x, 1.0)
  {
    hide Denotes, Times, WholeUnits, Power, Magnitude;
    TimesOne(Abs(Shown(x) - x));
    WholeOnes(x);
    IntegerDenotes(Trunc(x));
    IntegerDenotes(x.Floor);
  }

  /** The text shows the number to the nearest unit of its last digit, and it shows the number itself
      if and only if that is a whole number of units. */
  lemma {:induction false} ShownIsNearest(x: real)
    ensures Times(Abs(Shown(x) - x), Scale(x)) <= 0.5
    ensures Shown(x) == x <==> WholeUnits(x, Scale(x))
  {
    hide Shown, Times, WholeUnits, Power, FormatOf, Nearest;
    match FormatOf(x)
    case Scientific =>
      ScientificNotZero(x);
      var e := Magnitude(10, Abs(x)) - 6;
      ScientificShown(x);
      PowerInverse(10, -e);
      NearestUnits(x, Power(10, -e), Power(10, e));
    case Fixed =>
      FixedShown(x);
      PowerInverse(10, 6);
      NearestUnits(x, Power(10, 6), Power(10, -6));
    case _ => IntShown(x);
  }

  /** Integers of any size are shown as they are. */
  lemma {:induction false} IntegersShown(m: int)
    ensures Shown(m as real) == m as real
  {
    hide Denotes;
    IntegerDenotes(m);
  }

  // ---------- the room the text takes ----------

  /** The buffer that is allocated for the format has room for the text and its terminator. */
  predicate FitsBuffer(x: real) {
    |FormatNumber(x)| < if FormatOf(x) == Int then 21 else 64
  }

  lemma {:induction false} DigitsLength(n: nat, k: nat)
    requires k > 0
    ensures |Digits(n)| <= k <==> n < NatPower(10, k)
  {
    if k == 1 {
      PowerOfOne();
    } else if n < 10 {
      PowerAtLeastTen(k);
    } else {
      DigitsLength(n / 10, k - 1);
    }
  }

  lemma {:induction false} PowerOfOne()
    ensures NatPower(10, 1) == 10
  {}

  lemma {:induction false} PowerAtLeastTen(k: nat)
    requires k > 0
    ensures NatPower(10, k) >= 10
  {
    if k == 1 {
      PowerOfOne();
    } else {
      PowerAtLeastTen(k - 1);
    }
  }

  /** An int takes at most eleven characters. */
  lemma {:induction false} IntLength(m: int)
    requires FitsInt(m)
    ensures |DecimalText(m)| <= 11
  {
    PowersOfTen();
    DigitsLength(if m < 0 then -m else m, 10);
  }

  lemma {:induction false} TextLength(n: NumberText)
    ensures |Text(n)| == (if n.negative then 1 else 0) + |n.int_| + (if n.frac == [] then 0 else 1 + |n.frac|)
                       + (if n.exp.NoExp? then 0 else 1 + |n.exp.sign| + |n.exp.digits|)
  {}

  lemma {:induction false} FixedFits(x: real)
    requires FormatOf(x) == Fixed
    ensures FitsBuffer(x)
  {
    var k := Nearest(Abs(x) * MILLION as real);
    PowersOfTen();
    DigitsLength(k / MILLION, 10);
    TextLength(FixedText(x));
  }

  lemma {:induction false} ScientificFits(x: real)
    requires FormatOf(x) == Scientific && -1100 <= Magnitude(10, Abs(x)) <= 1100
    ensures FitsBuffer(x)
  {
    hide Magnitude, Power, Text;
    SignificandIs(Abs(x));
    var s := Significand(Abs(x));
    var k := if s.exponent < 0 then -s.exponent else s.exponent;
    PowersOfTen();
    DigitsLength(k, 10);
    DigitsLength(s.digits / MILLION, 10);
    TextLength(ScientificText(x));
  }

  /** A sign takes one of the 63 characters. */
  predicate DigitsFit(m: int) {
    if m < 0 then -m < NatPower(10, 62) else m < NatPower(10, 63)
  }

  lemma {:induction false} IntegralFits(x: real)
    requires FormatOf(x) == Integral
    ensures FitsBuffer(x) <==> DigitsFit(x.Floor)
  {
    hide NatPower, Text, IntegerText, Grammatical, Accumulated;
    var m := x.Floor;
    IntegerTextIs(m);
    DigitsLength(if m < 0 then -m else m, 62);
    DigitsLength(if m < 0 then -m else m, 63);
  }

  /** The power of ten of a double in scientific format. */
  lemma {:induction false} ScientificRange(x: real)
    requires FormatOf(x) == Scientific && IsDouble(x)
    ensures -1100 <= Magnitude(10, Abs(x)) <= 1100
  {
    hide Power, Magnitude, IsDouble, FormatOf;
    ScientificBelow(x);
    MagnitudeIs(10, Abs(x));
    var e := Magnitude(10, Abs(x));
    TenBelow(1074);
    LeastDouble(x);
    PowersOfTwo();
    TenAbove(53);
    PowerReflects(10, -1074, e + 1);
    PowerReflects(10, e, 53);
  }

  lemma {:induction false} ScientificBelow(x: real)
    requires FormatOf(x) == Scientific && IsDouble(x)
    ensures x != 0.0 && Abs(x) < TWO53 as real
  {
    if Abs(x) >= TWO53 as real {
      LargeWhole(x);
    }
  }

  lemma {:induction false} TenAbove(n: nat)
    ensures Power(2, n) <= Power(10, n)
  {
    if n == 0 {
    } else {
      TenAbove(n - 1);
      hide Power;
      PowerStep(2, n - 1);
      PowerStep(10, n - 1);
    }
  }

  lemma {:induction false} TenBelow(n: int)
    requires n >= 0
    ensures Power(10, -n) <= Power(2, -n)
  {
    TenAbove(n);
    PowerInverse(10, n);
    PowerInverse(2, n);
    hide Power, Times;
    TimesOrder(Power(2, n), Power(10, n), Power(10, -n));
    TimesOrder(Power(10, -n), Power(2, -n), Power(2, n));
    Swapped(Power(2, n), Power(10, -n));
    Swapped(Power(2, n), Power(2, -n));
  }

  /** A double fits unless it is printed as an integer of 64 or more characters, for which the code does
      not check. */
  lemma {:induction false} DoublesFit(x: real)
    requires IsDouble(x)
    ensures FitsBuffer(x) <==> (FormatOf(x) == Integral ==> DigitsFit(x.Floor))
  {
    hide Power, NatPower, Magnitude, FitsBuffer, Text, IsDouble, DigitsFit;
    match FormatOf(x)
    case Int =>
      IntegerTextIs(Trunc(x));
      IntLength(Trunc(x));
      FitsInt21(x);
    case Integral => IntegralFits(x);
    case Fixed => FixedFits(x);
    case Scientific =>
      ScientificRange(x);
      ScientificFits(x);
  }

  lemma {:induction false} FitsInt21(x: real)
    requires FormatOf(x) == Int && |Text(IntegerText(Trunc(x)))| <= 11
    ensures FitsBuffer(x)
  {}

  lemma {:induction false} ThousandsGrow(k: nat)
    ensures NatPower(10, 3 * k) <= NatPower(2, 10 * k)
  {
    if k == 0 {
    } else {
      ThousandsGrow(k - 1);
      Thousand(3 * k - 3);
      Doubled(10 * k - 10);
    }
  }

  lemma {:induction false} Thousand(k: nat)
    ensures NatPower(10, k + 3) == 1000 * NatPower(10, k)
  {
    assert NatPower(10, k + 3) == 10 * NatPower(10, k + 2);
    assert NatPower(10, k + 2) == 10 * NatPower(10, k + 1);
  }

  lemma {:induction false} Doubled(k: nat)
    ensures NatPower(2, k + 10) == 1024 * NatPower(2, k)
  {
    assert NatPower(2, k + 10) == 4 * NatPower(2, k + 8);
    assert NatPower(2, k + 8) == 4 * NatPower(2, k + 6);
    assert NatPower(2, k + 6) == 4 * NatPower(2, k + 4);
    assert NatPower(2, k + 4) == 4 * NatPower(2, k + 2);
  }

  /** Two to the 210th is a double of 64 digits. */
  lemma {:induction false} OverrunExample()
    ensures IsDouble(Power(2, 210)) && !FitsBuffer(Power(2, 210))
  {
    var n, x := NatPower(2, 210), Power(2, 210);
    ThousandsGrow(21);
    TimesOne(x);
    assert Represents(x, 1, 210);
    PowerIsNat(2, 210);
    AtLeastTwo53(63);
    hide Power, NatPower, FitsBuffer, IsDouble;
    NearestOf(n);
    assert FormatOf(x) == Integral;
    DoublesFit(x);
  }

  lemma {:induction false} AtLeastTwo53(k: nat)
    requires k >= 53
    ensures NatPower(10, k) >= TWO53
  {
    TenAbove(53);
    PowersOfTwo();
    PowerGrows(10, 53, k);
    PowerIsNat(10, k);
  }
}
