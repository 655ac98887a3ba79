/** The double that the printed text of a number is read back as, and which numbers come back. */
module NumberReread {
  import opened Bytes
  import opened Reals
  import opened Doubles
  import opened JsonNumber
  import opened JsonDouble
  import opened NumberFormat

  /** What the parser makes of the printed text. */
  function Reread(x: real): real {
    NumberOfGrammatical(x);
    DoubleOf(Accumulated(NumberOf(x)))
  }

  // ---------- format by format ----------

  lemma {:induction false} DoublesAccumulate(t: bytes)
    requires AllDigits(t)
    ensures IsDouble(DigitsDouble(t))
  {
    hide IsDouble, Rounded;
    if t == [] {
      IntegersStay(0);
      RoundedIsDouble(0.0);
    } else {
      RoundedIsDouble(Rounded(Times(10.0, DigitsDouble(t[..|t| - 1]))) + (t[|t| - 1] - ZERO) as real);
    }
  }

  /** Without an exponent the digits alone count. */
  lemma {:induction false} DoubleOfInteger(d: Decimal)
    requires AllDigits(d.digits) && d.exponent == 0
    ensures DoubleOf(d) == WithSign(d.negative, DigitsDouble(d.digits))
  {
    hide DigitsDouble, Rounded, Times, Power, IsDouble;
    DoubleIs(d);
    PowerNone(10);
    IntegersStay(1);
    TimesOne(DigitsDouble(d.digits));
    DoublesAccumulate(d.digits);
    DoublesStay(DigitsDouble(d.digits));
  }

  lemma {:induction false} IntegerDigits(m: int)
    requires m != 0 && Grammatical(IntegerText(m))
    ensures var k := if m < 0 then -m else m;
      AllDigits(Digits(k)) && Accumulated(IntegerText(m)) == Decimal(m < 0, Digits(k), 0)
  {
    var k := if m < 0 then -m else m;
    DigitsRoundTrip(k);
    hide Grammatical, AllDigits;
    assert Digits(k) + [] == Digits(k);
  }

  /** The double that the digits of a natural number accumulate to. */
  function IntegerRead(k: nat): real {
    DigitsRoundTrip(k);
    DigitsDouble(Digits(k))
  }

  lemma {:induction false} IntegerReadIs(k: nat)
    requires k <= TWO53
    ensures IntegerRead(k) == k as real
  {
    DigitsRoundTrip(k);
    hide Digits, DigitsDouble;
    DigitsExact(Digits(k));
  }

  lemma {:induction false} IntegerReread(m: int)
    ensures Grammatical(IntegerText(m))
    ensures DoubleOf(Accumulated(IntegerText(m))) == WithSign(m < 0, IntegerRead(if m < 0 then -m else m))
  {
    hide DoubleOf, Digits, DigitsDouble, Accumulated, Grammatical;
    IntegerTextIs(m);
    if m == 0 {
      IntegerDouble(0);
      IntegerReadIs(0);
    } else {
      DigitsRoundTrip(if m < 0 then -m else m);
      IntegerDigits(m);
      DoubleOfInteger(Accumulated(IntegerText(m)));
    }
  }

  lemma {:induction false} DecimalReread(d: Decimal, k: nat, e: int)
    requires AllDigits(d.digits) && DigitsValue(d.digits) == k <= TWO53 && d.exponent == e
    ensures DoubleOf(d) == WithSign(d.negative, Rounded(Times(k as real, Rounded(Power(10, e)))))
  {
    hide DigitsDouble, Rounded, Times, Power, DoubleOf, WithSign;
    DoubleIs(d);
    DigitsExact(d.digits);
  }

  lemma {:induction false} NearestBelow(x: real, k: nat)
    requires 0.0 <= x <= k as real
    ensures Nearest(x) <= k
  {}

  lemma {:induction false} FixedReread(x: real)
    requires FormatOf(x) == Fixed
    ensures Reread(x) == WithSign(x < 0.0, Rounded(Times(Nearest(Abs(x) * MILLION as real) as real, MICRO)))
  {
    hide Rounded, Times, Power, DoubleOf, WithSign, Nearest, SixDecimals, Accumulated, DigitsValue;
    var k := Nearest(Abs(x) * MILLION as real);
    NearestBelow(Abs(x) * MILLION as real, 1_000_000_000 * MILLION);
    NumberOfGrammatical(x);
    SixDecimalsTaken(x < 0.0, k, NoExp);
    DecimalReread(Accumulated(NumberOf(x)), k, -6);
    MicroIs();
  }

  lemma {:induction false} ScientificReread(x: real)
    requires FormatOf(x) == Scientific && x != 0.0
    ensures var s := Significand(Abs(x));
      Reread(x) == WithSign(x < 0.0, Rounded(Times(s.digits as real, Rounded(Power(10, s.exponent - 6)))))
  {
    hide Rounded, Times, Power, DoubleOf, WithSign, Significand, SixDecimals, Accumulated, DigitsValue, Nearest;
    hide ExponentPart, ExpValue, AllDigits;
    var s := Significand(Abs(x));
    SignificandIs(Abs(x));
    NumberOfGrammatical(x);
    ExponentPartValue(s.exponent);
    SixDecimalsTaken(x < 0.0, s.digits, ExponentPart(s.exponent));
    DecimalReread(Accumulated(NumberOf(x)), s.digits, s.exponent - 6);
  }

  // ---------- which numbers come back ----------

  /** x is what the parser makes of k millionths, up to its sign. */
  predicate FromMillionths(x: real, k: nat) {
    Abs(x) == Rounded(Times(k as real, MICRO))
  }

  /** x is what the parser makes of seven digits and a power of ten, up to its sign. */
  predicate FromSevenDigits(x: real, k: nat, e: int) {
    MILLION <= k < 10 * MILLION && Abs(x) == Rounded(Times(k as real, Rounded(Power(10, e))))
  }

  /** The numbers that come back, by the format they are printed in: integers, doubles that their own
      digits accumulate to, and what texts of six decimals and of seven digits are read as. */
  ghost predicate Kept(x: real) {
    match FormatOf(x)
    case Int => x.Floor as real == x
    case Integral => Abs(x) == IntegerRead(if x.Floor < 0 then -x.Floor else x.Floor)
    case Fixed => exists k: nat :: FromMillionths(x, k)
    case Scientific => exists k: nat, e: int :: FromSevenDigits(x, k, e)
  }

  lemma {:induction false} NearestUnique(x: real, k: int)
    requires Abs(x - k as real) < 0.5
    ensures Nearest(x) == k
  {
    hide Nearest;
    if Nearest(x) != k {
      Apart(Nearest(x), k);
    }
  }

  /** Neither the double nearest to a millionth nor the rounded product is far enough off. */
  lemma {:induction false} MillionthsBack(k: nat, y: real, r: real)
    requires y == k as real * MICRO && Times(TWO53 as real, Abs(r - y)) <= y && r <= 1_000_000_000.0
    ensures Abs(r * MILLION as real - k as real) < 0.5
  {
    assert 9_007_199_254_740_992.0 * (r - y) <= y && 9_007_199_254_740_992.0 * (y - r) <= y;
  }

  lemma {:induction false} MicroNormal(k: nat)
    requires k > 0
    ensures Power(2, -1022) <= Times(k as real, MICRO)
  {
    AroundMicro();
    PowerGrows(2, -1022, -20);
    hide Power;
  }

  lemma {:induction false} FromMillionthsIs(x: real, k: nat)
    requires FormatOf(x) == Fixed && FromMillionths(x, k)
    ensures Nearest(Abs(x) * MILLION as real) == k
  {
    var y := Times(k as real, MICRO);
    hide Rounded, Nearest, Power;
    if k == 0 {
      RoundedNone();
      assert false;
    } else {
      MicroNormal(k);
      RelativeError(y);
      MillionthsBack(k, y, Abs(x));
      NearestUnique(Abs(x) * MILLION as real, k);
    }
  }

  lemma {:induction false} ScientificAbove(x: real)
    requires FormatOf(x) == Scientific
    ensures Abs(x) > DBL_EPSILON
  {}

  /** Neither p nor the rounded product with it is far enough off, in units of which w make one. */
  lemma {:induction false} SevenDigitsNear(k: nat, p: real, q: real, r: real, w: real)
    requires 0 < k < 10 * MILLION && w > 0.0 && Times(q, w) == 1.0
    requires Times(TWO53 as real, Abs(p - q)) <= q
    requires Times(TWO53 as real, Abs(r - Times(k as real, p))) <= Times(k as real, p)
    ensures Abs(Times(r, w) - k as real) < 0.01
  {
    hide Times;
    ErrorScaled(p, q, w);
    ErrorScaled(r, Times(k as real, p), w);
    TimesBy(k as real, p, w);
    ErrorsSmall(k, Times(p, w), Times(r, w));
  }

  lemma {:induction false} ErrorScaled(a: real, b: real, w: real)
    requires w > 0.0 && Times(TWO53 as real, Abs(a - b)) <= b
    ensures Times(TWO53 as real, Abs(Times(a, w) - Times(b, w))) <= Times(b, w)
  {
    hide Times;
    InUnits(b, a, w);
    TimesBy(TWO53 as real, Abs(a - b), w);
    TimesOrder(Times(TWO53 as real, Abs(a - b)), b, w);
  }

  lemma {:induction false} ErrorsSmall(k: nat, p: real, z: real)
    requires 0 < k < 10 * MILLION && Times(TWO53 as real, Abs(p - 1.0)) <= 1.0
    requires Times(TWO53 as real, Abs(z - Times(k as real, p))) <= Times(k as real, p)
    ensures Abs(z - k as real) < 0.01
  {
    hide Times;
    ErrorScaled(p, 1.0, k as real);
    Swapped(p, k as real);
    TimesOne(k as real);
    ErrorsAdd(k, Times(k as real, p), z);
  }

  lemma {:induction false} ErrorsAdd(k: nat, y: real, z: real)
    requires k < 10 * MILLION && Times(TWO53 as real, Abs(y - k as real)) <= k as real
    requires Times(TWO53 as real, Abs(z - y)) <= y
    ensures Abs(z - k as real) < 0.01
  {}

  /** Seven digits of a number that is close to k units are k. */
  lemma {:induction false} SevenDigitsBack(r: real, k: nat, e: int)
    requires r > 0.0 && MILLION <= k < 10 * MILLION && Abs(Times(r, Power(10, -e)) - k as real) < 0.01
    ensures Significand(r) == Significant(k, e + 6)
  {
    var w := Power(10, -e);
    var z := Times(r, w);
    hide Power, Magnitude, Nearest;
    TenPowers();
    if z >= MILLION as real {
      AroundUnits(r, e + 6, e);
      MagnitudeUnique(10, r, e + 6);
      NearestUnique(z, k);
    } else {
      AroundUnits(r, e + 5, e);
      MagnitudeUnique(10, r, e + 5);
      PowerStep(10, -e);
      TimesBy(10.0, r, w);
      TenfoldNearest(z);
    }
  }

  lemma {:induction false} TenPowers()
    ensures Power(10, 5) == 100_000.0 && Power(10, 6) == 1_000_000.0 && Power(10, 7) == 10_000_000.0
  {
    SixIs();
    PowerStep(10, 5);
    PowerStep(10, 6);
    hide Power;
  }

  lemma {:induction false} TenfoldNearest(z: real)
    requires Abs(z - MILLION as real) < 0.01
    ensures Nearest(Times(10.0, z)) == 10 * MILLION
  {
    NearestUnique(Times(10.0, z), 10 * MILLION);
  }

  /** Between two powers of ten, counted in units. */
  lemma {:induction false} AroundUnits(r: real, m: int, e: int)
    requires Power(10, m - e) <= Times(r, Power(10, -e)) < Power(10, m + 1 - e)
    ensures Power(10, m) <= r < Power(10, m + 1)
  {
    PowerTimes(10, m, -e);
    PowerTimes(10, m + 1, -e);
    hide Power, Times;
    TimesOrder(Power(10, m), r, Power(10, -e));
    TimesOrder(r, Power(10, m + 1), Power(10, -e));
  }

  /** Seven digits that are read as more than DBL_EPSILON have no exponent below -100. */
  lemma {:induction false} ExponentAbove(x: real, k: nat, e: int)
    requires FormatOf(x) == Scientific && FromSevenDigits(x, k, e)
    ensures Power(2, -100) <= Power(10, e)
  {
    var q := Power(10, e);
    var p := Rounded(q);
    ScientificAbove(x);
    RoundedAtMostTwice(q);
    SmallUnit();
    hide FormatOf, Power, Rounded;
    TimesBounded(k, p, 2.0 * q);
    RoundedAtMostTwice(Times(k as real, p));
  }

  lemma {:induction false} TimesBounded(k: nat, p: real, q: real)
    requires 0.0 <= p <= q && k < 10 * MILLION
    ensures 0.0 <= Times(k as real, p) <= 10_000_000.0 * q
  {
    if p > 0.0 {
      TimesOrder(k as real, 10_000_000.0, p);
    }
  }

  lemma {:induction false} SmallUnit()
    ensures 40_000_000.0 * Power(2, -100) <= DBL_EPSILON
  {
    hide Power;
    PowersOfTwo();
    PowerInverse(2, -52);
    SmallPowers();
    PowerInverse(2, -20);
    PowerTimes(2, -52, -20);
    PowerTimes(2, -20, -72);
    PowerGrows(2, -100, -92);
  }

  /** Both roundings are of numbers that are not too small. */
  lemma {:induction false} SevenDigitsErrors(k: nat, q: real)
    requires k > 0 && Power(2, -100) <= q
    ensures Times(TWO53 as real, Abs(Rounded(q) - q)) <= q
    ensures var y := Times(k as real, Rounded(q)); Times(TWO53 as real, Abs(Rounded(y) - y)) <= y
  {
    PowerGrows(2, -1022, -100);
    PowerGrows(2, -1022, -101);
    PowerStep(2, -101);
    hide Power, Rounded, Times;
    RelativeError(q);
    HalfLeft(Rounded(q), q, Power(2, -101));
    ManyMore(k, Rounded(q));
    RelativeError(Times(k as real, Rounded(q)));
  }

  lemma {:induction false} HalfLeft(p: real, q: real, u: real)
    requires Times(TWO53 as real, Abs(p - q)) <= q && Times(2.0, u) <= q && u > 0.0
    ensures u <= p
  {}

  lemma {:induction false} ManyMore(k: nat, p: real)
    requires k > 0 && p > 0.0
    ensures p <= Times(k as real, p)
  {
    TimesOrder(1.0, k as real, p);
    TimesOne(p);
  }

  lemma {:induction false} FromSevenDigitsIs(x: real, k: nat, e: int)
    requires FormatOf(x) == Scientific && FromSevenDigits(x, k, e)
    ensures x != 0.0 && Significand(Abs(x)) == Significant(k, e + 6)
  {
    hide FormatOf, Power, Rounded, Significand, FromSevenDigits, Times;
    var q := Power(10, e);
    FromSevenDigitsMeans(x, k, e);
    ScientificAbove(x);
    ExponentAbove(x, k, e);
    SevenDigitsErrors(k, q);
    PowerInverse(10, e);
    SevenDigitsNear(k, Rounded(q), q, Abs(x), Power(10, -e));
    SevenDigitsBack(Abs(x), k, e);
  }

  // ---------- the two agree ----------

  lemma {:induction false} SignedBack(x: real, y: real)
    requires y >= 0.0
    ensures WithSign(x < 0.0, y) == x <==> Abs(x) == y
  {}

  lemma {:induction false} RoundedNotNegative(x: real)
    requires x >= 0.0
    ensures Rounded(x) >= 0.0
  {
    RoundedAtMostTwice(x);
  }

  lemma {:induction false} KeptIs(x: real)
    ensures FormatOf(x) == Int ==> (Kept(x) <==> x.Floor as real == x)
    ensures FormatOf(x) == Scientific ==> (Kept(x) <==> exists k: nat, e: int :: FromSevenDigits(x, k, e))
  {
    hide FormatOf, FromMillionths, FromSevenDigits, IntegerRead;
  }

  lemma {:induction false} FixedKept(x: real)
    requires FormatOf(x) == Fixed
    ensures Reread(x) == x <==> Kept(x)
  {
    var k := Nearest(Abs(x) * MILLION as real);
    FixedReread(x);
    hide FormatOf, Rounded, Nearest, Reread, FromMillionths;
    RoundedNotNegative(Times(k as real, MICRO));
    SignedBack(x, Rounded(Times(k as real, MICRO)));
    FromMillionthsMeans(x, k);
    if Kept(x) {
      var j: nat :| FromMillionths(x, j);
      FromMillionthsIs(x, j);
    }
  }

  lemma {:induction false} FromMillionthsMeans(x: real, k: nat)
    ensures FromMillionths(x, k) <==> Abs(x) == Rounded(Times(k as real, MICRO))
  {}

  lemma {:induction false} SevenDigitsNotNegative(k: nat, e: int)
    ensures Rounded(Times(k as real, Rounded(Power(10, e)))) >= 0.0
  {
    hide Rounded, Power, Times;
    RoundedNotNegative(Power(10, e));
    TimesNotNegative(k as real, Rounded(Power(10, e)));
    RoundedNotNegative(Times(k as real, Rounded(Power(10, e))));
  }

  lemma {:induction false} ScientificSame(x: real)
    requires FormatOf(x) == Scientific && x != 0.0
    ensures var s := Significand(Abs(x)); Reread(x) == x <==> FromSevenDigits(x, s.digits, s.exponent - 6)
  {
    hide FormatOf, Rounded, Significand, Reread, FromSevenDigits, Power, Times, Nearest, WithSign, Magnitude;
    var s := Significand(Abs(x));
    ScientificReread(x);
    SignificandIs(Abs(x));
    SevenDigitsNotNegative(s.digits, s.exponent - 6);
    SignedBack(x, Rounded(Times(s.digits as real, Rounded(Power(10, s.exponent - 6)))));
    FromSevenDigitsMeans(x, s.digits, s.exponent - 6);
  }

  lemma {:induction false} ScientificKept(x: real)
    requires FormatOf(x) == Scientific
    ensures Reread(x) == x <==> Kept(x)
  {
    ScientificAbove(x);
    KeptIs(x);
    hide FormatOf, Significand, Reread, FromSevenDigits, Kept;
    var s := Significand(Abs(x));
    ScientificSame(x);
    if Kept(x) {
      var k: nat, e: int :| FromSevenDigits(x, k, e);
      FromSevenDigitsIs(x, k, e);
      assert e == s.exponent - 6;
    }
  }

  lemma {:induction false} TimesNotNegative(x: real, y: real)
    requires x >= 0.0 && y >= 0.0
    ensures Times(x, y) >= 0.0
  {}

  lemma {:induction false} FromSevenDigitsMeans(x: real, k: nat, e: int)
    ensures FromSevenDigits(x, k, e)
      <==> MILLION <= k < 10 * MILLION && Abs(x) == Rounded(Times(k as real, Rounded(Power(10, e))))
  {}

  lemma {:induction false} IntFits(x: real)
    requires FormatOf(x) == Int
    ensures -TWO53 <= Trunc(x) <= TWO53
  {}

  lemma {:induction false} IntKept(x: real)
    requires FormatOf(x) == Int
    ensures Reread(x) == Trunc(x) as real
    ensures Reread(x) == x <==> Kept(x)
  {
    IntFits(x);
    WholeOnes(x);
    KeptIs(x);
    hide DoubleOf, Accumulated, Grammatical, IntegerText, IntegerRead, FormatOf, Trunc, Kept, WholeUnits;
    IntegerReread(Trunc(x));
    IntegerReadIs(if Trunc(x) < 0 then -Trunc(x) else Trunc(x));
  }

  lemma {:induction false} NextNotNegative(n: real, d: nat)
    requires n >= 0.0
    ensures NextDouble(n, d) >= 0.0
  {
    hide Rounded;
    RoundedNotNegative(Times(10.0, n));
    RoundedNotNegative(Rounded(Times(10.0, n)) + d as real);
  }

  lemma {:induction false} DigitsNotNegative(t: bytes)
    requires AllDigits(t)
    ensures DigitsDouble(t) >= 0.0
  {
    if t == [] {
    } else {
      hide NextDouble;
      DigitsNotNegative(t[..|t| - 1]);
      NextNotNegative(DigitsDouble(t[..|t| - 1]), t[|t| - 1] - ZERO);
    }
  }

  lemma {:induction false} IntegralKept(x: real)
    requires FormatOf(x) == Integral
    ensures Reread(x) == WithSign(x.Floor < 0, IntegerRead(if x.Floor < 0 then -x.Floor else x.Floor))
    ensures Reread(x) == x <==> Kept(x)
  {
    var k := if x.Floor < 0 then -x.Floor else x.Floor;
    hide FormatOf, DoubleOf, Accumulated, Grammatical, IntegerText, IntegerRead, WithSign;
    IntegerReadNotNegative(k);
    IntegerReread(x.Floor);
    SignedBack(x, IntegerRead(k));
  }

  lemma {:induction false} IntegerReadNotNegative(k: nat)
    ensures IntegerRead(k) >= 0.0
  {
    DigitsRoundTrip(k);
    DigitsNotNegative(Digits(k));
  }

  /** The parser gives a printed number back if and only if it is one of those. */
  lemma {:induction false} RereadIsSame(x: real)
    ensures Reread(x) == x <==> Kept(x)
  {
    hide Reread, Kept, FormatOf;
    match FormatOf(x)
    case Int => IntKept(x);
    case Integral => IntegralKept(x);
    case Fixed => FixedKept(x);
    case Scientific => ScientificKept(x);
  }

  /** Integers of at most 53 bits come back. */
  lemma {:induction false} IntegersKept(m: int)
    requires -TWO53 <= m <= TWO53
    ensures Kept(m as real)
  {
    hide IntegerRead;
    NearestOf(m);
    IntegerReadIs(if m < 0 then -m else m);
  }

  // ---------- larger integers ----------

  lemma {:induction false} DigitsNext(n: nat, d: nat)
    requires n > 0 && d < 10
    ensures Digits(10 * n + d) == Digits(n) + [ZERO + d]
  {
    assert (10 * n + d) / 10 == n && (10 * n + d) % 10 == d;
  }

  lemma {:induction false} IntegerReadNext(n: nat, d: nat, m: nat)
    requires n > 0 && d < 10 && m == 10 * n + d
    ensures IntegerRead(m) == NextDouble(IntegerRead(n), d)
  {
    DigitsNext(n, d);
    DigitsRoundTrip(n);
    hide NextDouble, DigitsDouble, Digits;
    DoubleAppend(Digits(n), ZERO + d);
  }

  lemma {:induction false} ZeroAppended(x: real)
    requires IsDouble(Times(10.0, x))
    ensures NextDouble(x, 0) == Times(10.0, x)
  {
    hide Rounded, IsDouble, Times;
    DoublesStay(Times(10.0, x));
  }

  lemma {:induction false} TenfoldIsDouble(m: nat, j: nat)
    requires m * NatPower(5, j) <= TWO53
    ensures IsDouble((m * NatPower(10, j)) as real)
  {
    var k := m * NatPower(5, j);
    FivesAndTwos(j);
    PowerIsNat(10, j);
    hide NatPower, Power, IsDouble;
    Factored(m, NatPower(5, j), NatPower(10, j), Power(2, j));
    UnitsAreDouble((m * NatPower(10, j)) as real, k, j);
  }

  lemma {:induction false} Factored(m: nat, f: nat, t: nat, u: real)
    requires t as real == Times(f as real, u)
    ensures (m * t) as real == Times((m * f) as real, u)
  {
    assert (m * t) as real == m as real * t as real;
    assert (m * f) as real == m as real * f as real;
    assert m as real * (f as real * u) == (m as real * f as real) * u;
  }

  lemma {:induction false} FewerFives(m: nat, j: nat)
    requires j > 0
    ensures m * NatPower(5, j - 1) <= m * NatPower(5, j)
    ensures m * NatPower(10, j) == 10 * (m * NatPower(10, j - 1))
  {
    var f, t := NatPower(5, j - 1), NatPower(10, j - 1);
    assert m * (5 * f) == 5 * (m * f);
    assert m * (10 * t) == 10 * (m * t);
  }

  /** Zeros behind the other digits do no harm as long as fives fit into the 53 bits instead. */
  lemma {:induction false} ZerosRead(m: nat, j: nat)
    requires 0 < m && m * NatPower(5, j) <= TWO53
    ensures IntegerRead(m * NatPower(10, j)) == (m * NatPower(10, j)) as real
  {
    if j == 0 {
      IntegerReadIs(m);
    } else {
      FewerFives(m, j);
      ZerosRead(m, j - 1);
      TenfoldIsDouble(m, j);
      var n := m * NatPower(10, j - 1);
      Positive(m, NatPower(10, j - 1));
      hide IntegerRead, NextDouble, IsDouble, NatPower;
      assert Times(10.0, n as real) == (10 * n) as real;
      hide Times;
      IntegerReadNext(n, 0, 10 * n);
      ZeroAppended(n as real);
    }
  }

  lemma {:induction false} Positive(m: nat, t: nat)
    requires m > 0 && t > 0
    ensures m * t > 0
  {}

  /** So integers of more than 53 bits come back too if only zeros take them beyond that, as ten to the
      22nd. */
  lemma {:induction false} ZerosKept(m: nat, j: nat)
    requires 0 < m && m * NatPower(5, j) <= TWO53
    ensures Kept((m * NatPower(10, j)) as real)
  {
    var n := m * NatPower(10, j);
    ZerosRead(m, j);
    NearestOf(n);
    hide IntegerRead, NatPower;
  }

  // ---------- examples ----------

  lemma {:induction false} SomePowers()
    ensures Power(2, 2) == 4.0 && Power(2, 5) == 32.0
    ensures Power(2, 54) == 18_014_398_509_481_984.0 && Power(2, 55) == 36_028_797_018_963_968.0
    ensures Power(2, 57) == 144_115_188_075_855_872.0 && Power(2, 58) == 288_230_376_151_711_744.0
  {
    PowersOfTwo();
    PowerNone(2);
    hide Power;
    PowerStep(2, 1);
    PowerStep(2, 2);
    PowerStep(2, 3);
    PowerStep(2, 4);
    PowerStep(2, 53);
    PowerStep(2, 54);
    PowerStep(2, 55);
    PowerStep(2, 56);
    PowerStep(2, 57);
  }

  lemma {:induction false} ByFours()
    ensures Rounded(28_823_037_615_171_170.0) == 28_823_037_615_171_168.0
    ensures Rounded(28_823_037_615_171_172.0) == 28_823_037_615_171_172.0
  {
    assert Nearest(7_205_759_403_792_792.5) == 7_205_759_403_792_792;
    NearestOf(7_205_759_403_792_793);
    SomePowers();
    hide Power, Rounded, Nearest;
    RoundedIs(28_823_037_615_171_170.0, 7_205_759_403_792_792.5, 7_205_759_403_792_792, 2);
    RoundedIs(28_823_037_615_171_172.0, 7_205_759_403_792_793.0, 7_205_759_403_792_793, 2);
  }

  lemma {:induction false} ByThirtyTwos()
    ensures Rounded(288_230_376_151_711_720.0) == 288_230_376_151_711_712.0
    ensures Rounded(288_230_376_151_711_716.0) == 288_230_376_151_711_712.0
  {
    assert Nearest(9_007_199_254_740_991.25) == 9_007_199_254_740_991;
    assert Nearest(9_007_199_254_740_991.125) == 9_007_199_254_740_991;
    SomePowers();
    hide Power, Rounded, Nearest;
    RoundedIs(288_230_376_151_711_720.0, 9_007_199_254_740_991.25, 9_007_199_254_740_991, 5);
    RoundedIs(288_230_376_151_711_716.0, 9_007_199_254_740_991.125, 9_007_199_254_740_991, 5);
  }

  lemma {:induction false} LargeRead()
    ensures IntegerRead(288_230_376_151_711_744) == 288_230_376_151_711_712.0
  {
    hide Rounded, IntegerRead;
    ByFours();
    ByThirtyTwos();
    IntegerReadIs(2_882_303_761_517_117);
    IntegerReadNext(2_882_303_761_517_117, 4, 28_823_037_615_171_174);
    IntegerReadNext(28_823_037_615_171_174, 4, 288_230_376_151_711_744);
  }

  /** Two to the 58th is another double when it is read back: both of the last two digits round. */
  lemma {:induction false} LargeReread()
    ensures FormatOf(288_230_376_151_711_744.0) == Integral
    ensures Reread(288_230_376_151_711_744.0) == 288_230_376_151_711_712.0
  {
    NearestOf(288_230_376_151_711_744);
    assert FormatOf(288_230_376_151_711_744.0) == Integral;
    hide FormatOf, IntegerRead, Reread;
    LargeRead();
    IntegralKept(288_230_376_151_711_744.0);
  }

  /** The double nearest to three tenths. */
  const THREE_TENTHS: real := 5_404_319_552_844_595.0 / 18_014_398_509_481_984.0

  lemma {:induction false} ThreeTenthsRead()
    ensures FromMillionths(THREE_TENTHS, 300_000)
  {
    var k, z := 5_404_319_552_844_595, 300_000.0 * 4_722_366_482_869_645.0 / 262_144.0;
    SomePowers();
    PowerNone(2);
    PowerInverse(2, 54);
    PowerInverse(2, -54);
    Reciprocal(Power(2, -54), Power(2, 54));
    PowerStep(2, -1);
    PowerStep(2, -2);
    hide Power, Rounded;
    assert Nearest(z) == k;
    assert Times(z, 1.0 / 18_014_398_509_481_984.0) == Times(300_000.0, MICRO);
    assert Times(k as real, 1.0 / 18_014_398_509_481_984.0) == THREE_TENTHS;
    hide Nearest;
    RoundedIs(Times(300_000.0, MICRO), z, k, -54);
  }

  /** The double nearest to three tenths is not what its text denotes, but what the text is read as. */
  lemma {:induction false} ThreeTenthsKept()
    ensures Kept(THREE_TENTHS) && Shown(THREE_TENTHS) != THREE_TENTHS
  {
    assert FormatOf(THREE_TENTHS) == Fixed;
    ThreeTenthsRead();
    SixIs();
    assert !WholeUnits(THREE_TENTHS, MILLION as real);
    hide FormatOf, FromMillionths, Shown, WholeUnits, Power;
    ShownIsNearest(THREE_TENTHS);
  }

  lemma {:induction false} TenthPowers()
    ensures Power(2, -56) == 1.0 / 72_057_594_037_927_936.0
    ensures Power(2, -4) == 1.0 / 16.0 && Power(2, -3) == 1.0 / 8.0
  {
    SomePowers();
    PowerNone(2);
    hide Power;
    PowerStep(2, 55);
    PowerInverse(2, -56);
    PowerStep(2, -1);
    PowerStep(2, -2);
    PowerStep(2, -3);
    PowerStep(2, -4);
    Reciprocal(Power(2, -56), Power(2, 56));
  }

  /** Two neighbouring doubles, of which the second is the one nearest to a tenth. */
  const BELOW_TENTH: real := 7_205_759_403_792_793.0 / 72_057_594_037_927_936.0
  const TENTH: real := 7_205_759_403_792_794.0 / 72_057_594_037_927_936.0

  lemma {:induction false} TenthRead()
    ensures Rounded(Times(100_000.0, MICRO)) == BELOW_TENTH
  {
    var k, z := 7_205_759_403_792_793, 100_000.0 * 4_722_366_482_869_645.0 / 65_536.0;
    TenthPowers();
    hide Power, Rounded;
    assert Nearest(z) == k;
    assert Times(z, 1.0 / 72_057_594_037_927_936.0) == Times(100_000.0, MICRO);
    assert Times(k as real, 1.0 / 72_057_594_037_927_936.0) == BELOW_TENTH;
    hide Nearest;
    RoundedIs(Times(100_000.0, MICRO), z, k, -56);
  }

  /** The text 0.100000, whose exponent is -6, is read as a double to which another one is nearer. */
  lemma {:induction false} TenthExample()
    ensures NumberOf(0.1) == SixDecimals(false, 100_000, NoExp) && Shown(0.1) == 0.1
    ensures Reread(0.1) == BELOW_TENTH
    ensures IsDouble(TENTH) && Abs(TENTH - 0.1) < Abs(BELOW_TENTH - 0.1)
  {
    assert FormatOf(0.1) == Fixed;
    assert Nearest(Abs(0.1) * MILLION as real) == 100_000;
    TenthPowers();
    SixIs();
    assert WholeUnits(0.1, MILLION as real);
    assert Times(7_205_759_403_792_794.0, 1.0 / 72_057_594_037_927_936.0) == TENTH;
    hide FormatOf, Nearest, Power, Rounded, Reread, Shown, IsDouble, WholeUnits, SixDecimals;
    FixedReread(0.1);
    TenthRead();
    ShownIsNearest(0.1);
    UnitsAreDouble(TENTH, 7_205_759_403_792_794, -56);
  }

  /** One 128th has seven decimals, one more than are printed. */
  lemma {:induction false} OneIn128()
    ensures FormatOf(0.0078125) == Fixed && !Kept(0.0078125)
  {
    var x := 0.0078125;
    assert FormatOf(x) == Fixed;
    assert Nearest(Abs(x) * MILLION as real) == 7812;
    hide FormatOf, Nearest, Rounded;
    var y := Times(7812.0, MICRO);
    MicroNormal(7812);
    RelativeError(y);
    if Kept(x) {
      var k: nat :| FromMillionths(x, k);
      FromMillionthsIs(x, k);
      assert false;
    }
  }
}
