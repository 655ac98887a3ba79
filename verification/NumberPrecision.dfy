/** What a printed number looks like and how close it is, by the size of the number alone. */
module NumberPrecision {
  import opened Bytes
  import opened Reals
  import opened Doubles
  import opened JsonNumber
  import opened NumberFormat

  /** The integer below x, or for an int the one towards zero, is no further than DBL_EPSILON. */
  predicate AlmostWhole(x: real) {
    || Abs(x.Floor as real - x) <= DBL_EPSILON
    || (Abs(Trunc(x) as real - x) <= DBL_EPSILON && INT_MIN as real <= x <= INT_MAX as real)
  }

  /** From a millionth to a thousand million. */
  predicate Moderate(x: real) {
    MICRO <= Abs(x) <= 1_000_000_000.0
  }

  predicate IntegerShape(n: NumberText) {
    n.frac == [] && n.exp.NoExp?
  }

  /** Six digits behind the point. */
  predicate PointShape(n: NumberText) {
    |n.frac| == 6 && n.exp.NoExp?
  }

  /** One digit before the point, which is not zero, six behind it, and a signed exponent of at least two
      digits. */
  predicate ExponentShape(n: NumberText) {
    && |n.int_| == 1 && n.int_ != [ZERO] && |n.frac| == 6
    && n.exp.Exp? && n.exp.marker == LOWER_E && n.exp.sign != []
    && |n.exp.digits| >= 2 && (|n.exp.digits| > 2 ==> n.exp.digits[0] != ZERO)
  }

  lemma {:induction false} FormatBySize(x: real)
    ensures AlmostWhole(x) <==> FormatOf(x) == Int || FormatOf(x) == Integral
    ensures !AlmostWhole(x) && Moderate(x) <==> FormatOf(x) == Fixed
    ensures !AlmostWhole(x) && !Moderate(x) <==> FormatOf(x) == Scientific
  {}

  lemma {:induction false} ExponentDigits(e: int)
    ensures var n := ExponentPart(e);
      && n.marker == LOWER_E && n.sign != [] && |n.digits| >= 2 && (|n.digits| > 2 ==> n.digits[0] != ZERO)
  {
    var k := if e < 0 then -e else e;
    if k >= 10 {
      assert Digits(k) == Digits(k / 10) + [ZERO + k % 10];
    }
  }

  lemma {:induction false} LeadingDigit(k: nat)
    requires MILLION <= k < 10 * MILLION
    ensures |Digits(k / MILLION)| == 1 && Digits(k / MILLION) != [ZERO]
  {}

  /** The text is an integer exactly when the number is almost one, has six decimals and no exponent
      exactly when it is of moderate size otherwise, and one digit, six decimals and an exponent exactly
      when it is not. */
  lemma {:induction false} TextBySize(x: real)
    ensures FormatNumber(x) == Text(NumberOf(x)) && Grammatical(NumberOf(x))
    ensures AlmostWhole(x) <==> IntegerShape(NumberOf(x))
    ensures !AlmostWhole(x) && Moderate(x) <==> PointShape(NumberOf(x))
    ensures !AlmostWhole(x) && !Moderate(x) <==> ExponentShape(NumberOf(x))
  {
    hide FormatOf, AlmostWhole, Moderate, Grammatical, Text, Significand, Nearest, Digits, Padded, ExponentPart;
    FormatBySize(x);
    NumberOfGrammatical(x);
    if FormatOf(x) == Scientific {
      ScientificNotZero(x);
      SignificandIs(Abs(x));
      LeadingDigit(Significand(Abs(x)).digits);
      ExponentDigits(Significand(Abs(x)).exponent);
    }
  }

  lemma {:induction false} WholeClose(x: real)
    requires AlmostWhole(x)
    ensures Shown(x).Floor as real == Shown(x) && Abs(Shown(x) - x) <= DBL_EPSILON
  {
    FormatBySize(x);
    hide Denotes, IntegerText, Grammatical;
    IntegerDenotes(Trunc(x));
    IntegerDenotes(x.Floor);
  }

  lemma {:induction false} ModerateClose(x: real)
    requires !AlmostWhole(x) && Moderate(x)
    ensures Abs(Shown(x) - x) * 1_000_000.0 <= 0.5
  {
    FormatBySize(x);
    hide Shown, FormatOf, AlmostWhole, Moderate, WholeUnits, Power;
    SixIs();
    ShownIsNearest(x);
  }

  /** A number that is almost whole is shown as an integer within DBL_EPSILON; one of moderate size to the
      nearest millionth; any other to seven digits, that is to half of ten to the e - 6 where ten to the e
      is the power at or below it. */
  lemma {:induction false} ShownBySize(x: real, e: int)
    requires Power(10, e) <= Abs(x) < Power(10, e + 1)
    ensures AlmostWhole(x) ==> Shown(x).Floor as real == Shown(x) && Abs(Shown(x) - x) <= DBL_EPSILON
    ensures !AlmostWhole(x) && Moderate(x) ==> Abs(Shown(x) - x) * 1_000_000.0 <= 0.5
    ensures !AlmostWhole(x) && !Moderate(x) ==> Times(Abs(Shown(x) - x), Power(10, 6 - e)) <= 0.5
  {
    FormatBySize(x);
    if FormatOf(x) == Scientific {
      MagnitudeUnique(10, Abs(x), e);
      hide Shown, FormatOf, AlmostWhole, Moderate, WholeUnits, Power, Magnitude, Times;
      ShownIsNearest(x);
    } else if Moderate(x) && !AlmostWhole(x) {
      ModerateClose(x);
    } else {
      WholeClose(x);
    }
  }

  /** Zero has no power of ten at or below it. */
  lemma {:induction false} ZeroShown()
    ensures Shown(0.0) == 0.0
  {
    IntegersShown(0);
  }
}
