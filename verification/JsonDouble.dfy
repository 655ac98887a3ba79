/** The double that parse_number computes from what it takes: each step of a digit loop rounds the product
    and the sum, and the power of ten and the last product are rounded too. */
module JsonDouble {
  import opened Bytes
  import opened CText
  import opened Reals
  import opened Doubles
  import opened JsonNumber

  /** One step of a digit loop. */
  function NextDouble(n: real, d: nat): real {
    Rounded(Rounded(Times(10.0, n)) + d as real)
  }

  /** What the digit loops accumulate. */
  function DigitsDouble(t: bytes): real
    requires AllDigits(t)
  {
    if t == [] then 0.0 else NextDouble(DigitsDouble(t[..|t| - 1]), t[|t| - 1] - ZERO)
  }

  lemma {:induction false} DoubleAppend(t: bytes, c: byte)
    requires AllDigits(t) && IsDigit(c)
    ensures AllDigits(t + [c]) && DigitsDouble(t + [c]) == NextDouble(DigitsDouble(t), c - ZERO)
  {
    assert (t + [c])[..|t|] == t;
  }

  /** The double a decimal is read as; pow is taken to give the double nearest to the power. */
  function DoubleOf(d: Decimal): real
    requires AllDigits(d.digits)
  {
    Rounded(Times(WithSign(d.negative, DigitsDouble(d.digits)), Rounded(Power(10, d.exponent))))
  }

  /** The double parse_number stores for the number at p. */
  function DoubleAt(s: bytes, p: nat): real
    requires p <= |s|
  {
    DoubleOf(ReadNumber(s, p).value)
  }

  // ---------- when nothing but the last step rounds ----------

  lemma {:induction false} NextExact(n: nat, d: nat)
    requires 10 * n + d <= TWO53
    ensures NextDouble(n as real, d) == (10 * n + d) as real
  {
    IntegersStay(10 * n);
    IntegersStay(10 * n + d);
    hide Rounded;
    assert Times(10.0, n as real) == (10 * n) as real;
  }

  /** Up to two to the 53rd the digit loops are exact. */
  lemma {:induction false} DigitsExact(t: bytes)
    requires AllDigits(t) && DigitsValue(t) <= TWO53
    ensures DigitsDouble(t) == DigitsValue(t) as real
  {
    if t == [] {
    } else {
      hide NextDouble;
      DigitsExact(t[..|t| - 1]);
      NextExact(DigitsValue(t[..|t| - 1]), t[|t| - 1] - ZERO);
    }
  }

  lemma {:induction false} FivesAndTwos(e: nat)
    ensures Power(10, e) == Times(NatPower(5, e) as real, Power(2, e))
  {
    if e == 0 {
      PowerNone(10);
      PowerNone(2);
      TimesOne(1.0);
    } else {
      FivesAndTwos(e - 1);
      PowerStep(10, e - 1);
      PowerStep(2, e - 1);
      TenTimes(NatPower(5, e - 1), Power(2, e - 1));
    }
  }

  lemma {:induction false} TenTimes(k: nat, x: real)
    ensures Times(10.0, Times(k as real, x)) == Times((5 * k) as real, Times(2.0, x))
  {
    assert 10.0 * (k as real * x) == (5.0 * k as real) * (2.0 * x);
  }

  lemma {:induction false} FiveGrows(e: nat, f: nat)
    requires e <= f
    ensures NatPower(5, e) <= NatPower(5, f)
    decreases f - e
  {
    if e == f {
    } else {
      FiveGrows(e, f - 1);
    }
  }

  lemma {:induction false} FivesFit(e: nat)
    requires e <= 22
    ensures NatPower(5, e) <= TWO53
  {
    FiveGrows(e, 22);
    assert NatPower(5, 6) == 15625;
    assert NatPower(5, 12) == 244140625;
    assert NatPower(5, 17) == 762939453125;
    assert NatPower(5, 22) == 2384185791015625;
  }

  /** Ten to the 22nd is the largest power of ten that is a double. */
  lemma {:induction false} PowersStay(e: nat)
    requires e <= 22
    ensures Rounded(Power(10, e)) == Power(10, e)
  {
    FivesFit(e);
    FivesAndTwos(e);
    hide NatPower, Power, Times, Rounded;
    assert Represents(Power(10, e), NatPower(5, e), e);
    DoublesStay(Power(10, e));
  }

  lemma {:induction false} RoundedSigned(negative: bool, x: real)
    ensures Rounded(WithSign(negative, x)) == WithSign(negative, Rounded(x))
  {
    RoundedNegative(x);
  }

  lemma {:induction false} SignedProduct(negative: bool, x: real, y: real)
    ensures Times(WithSign(negative, x), y) == WithSign(negative, Times(x, y))
  {}

  lemma {:induction false} SignedInt(negative: bool, n: int)
    ensures Signed(negative, n) as real == WithSign(negative, n as real)
  {}

  lemma {:induction false} DoubleIs(d: Decimal)
    requires AllDigits(d.digits)
    ensures DoubleOf(d) == WithSign(d.negative, Rounded(Times(DigitsDouble(d.digits), Rounded(Power(10, d.exponent)))))
  {
    hide Rounded, Times, Power, WithSign, DigitsDouble;
    SignedProduct(d.negative, DigitsDouble(d.digits), Rounded(Power(10, d.exponent)));
    RoundedSigned(d.negative, Times(DigitsDouble(d.digits), Rounded(Power(10, d.exponent))));
  }

  /** With at most 53 bits of digits and a power of ten that is a double, only the last step rounds. */
  lemma {:induction false} RoundedOnce(d: Decimal)
    requires AllDigits(d.digits) && DigitsValue(d.digits) <= TWO53 && 0 <= d.exponent <= 22
    ensures DoubleOf(d) == Rounded(Value(d))
  {
    hide Rounded, Times, Power, DigitsDouble, DigitsValue, WithSign, Signed;
    DigitsExact(d.digits);
    PowersStay(d.exponent);
    SignedInt(d.negative, DigitsValue(d.digits));
  }

  /** The parser reads a text of the grammar as the double nearest to the number it denotes, if its
      digits, those behind the point included, have at most 53 bits and its exponent, less one for each
      digit behind the point, is from 0 to 22. */
  lemma {:induction false} ReadsNearest(n: NumberText, s: bytes, p: nat, y: real)
    requires Grammatical(n) && At(s, p, Text(n)) && Stops(s, p + |Text(n)|)
    requires DigitsValue(Accumulated(n).digits) <= TWO53 && 0 <= Accumulated(n).exponent <= 22
    requires IsDouble(y)
    ensures p <= |s| && Abs(DoubleAt(s, p) - Denotes(n)) <= Abs(y - Denotes(n))
  {
    hide Grammatical, Accumulated, DoubleOf, Value, Rounded, IsDouble;
    ReadsDecimal(n, s, p);
    AccumulatedDenotes(n);
    RoundedOnce(Accumulated(n));
    RoundedIsNearest(Denotes(n), y);
  }

  /** A printed integer of at most 53 bits is read as that integer. */
  lemma {:induction false} ReadsInteger(m: int, s: bytes, p: nat)
    requires At(s, p, DecimalText(m)) && Stops(s, p + |DecimalText(m)|) && -TWO53 <= m <= TWO53
    ensures p <= |s|
    ensures ReadNumber(s, p).next == p + |DecimalText(m)| && DoubleAt(s, p) == m as real
  {
    hide Grammatical, Accumulated, DoubleOf, IntegerText, DecimalText, Stops;
    IntegerTextIs(m);
    ReadsDecimal(IntegerText(m), s, p);
    IntegerDouble(m);
  }

  lemma {:induction false} IntegerDouble(m: int)
    requires Grammatical(IntegerText(m)) && -TWO53 <= m <= TWO53
    ensures DoubleOf(Accumulated(IntegerText(m))) == m as real
  {
    hide Accumulated, Rounded, Power, DoubleOf;
    IntegerTextIs(m);
    RoundedOnce(Accumulated(IntegerText(m)));
    PowerNone(10);
    TimesOne(m as real);
    IntegersStay(m);
  }
}
