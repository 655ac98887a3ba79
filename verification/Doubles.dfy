/** IEEE 754 doubles, as the reals they hold, and rounding to the nearest one. The range of exponents has
    a least one but no greatest: infinities are not modelled. */
module Doubles {
  import opened Reals

  /** The exponent of the smallest positive double. */
  const LEAST := -1074

  /** Two to the 53rd. */
  const TWO53 := 9_007_199_254_740_992

  /** x is k units of two to the e, up to its sign. */
  predicate Represents(x: real, k: nat, e: int) {
    Abs(x) == Times(k as real, Power(2, e)) && k <= TWO53 && e >= LEAST
  }

  ghost predicate IsDouble(x: real) {
    exists k: nat, e: int :: Represents(x, k, e)
  }

  /** The exponent of the unit in which doubles as large as x are spaced. */
  function UnitOf(x: real): (e: int)
    requires x > 0.0
    ensures e >= LEAST
  {
    var e := Magnitude(2, x) - 52;
    if e < LEAST then LEAST else e
  }

  /** The number of units nearest to x, ties to the even one. */
  function UnitsOf(x: real): nat
    requires x > 0.0
  {
    TimesPositive(x, Power(2, -UnitOf(x)));
    Nearest(Times(x, Power(2, -UnitOf(x))))
  }

  /** The double nearest to x. */
  function Rounded(x: real): real {
    if x == 0.0 then 0.0
    else WithSign(x < 0.0, Times(UnitsOf(Abs(x)) as real, Power(2, UnitOf(Abs(x)))))
  }

  // ---------- powers of two ----------

  lemma {:induction false} PowersOfTwo()
    ensures Power(2, 52) == 4_503_599_627_370_496.0 && Power(2, 53) == TWO53 as real
  {
    PowerIsNat(2, 13);
    assert Power(2, 13) == 8192.0;
    PowerTimes(2, 13, 13);
    PowerTimes(2, 26, 26);
    PowerStep(2, 52);
    assert NatPower(2, 13) == 8192;
  }

  /** In units of two to the u, k units of two to the e are a whole number if e is not smaller. */
  lemma {:induction false} UnitsWithin(k: nat, e: int, u: int) returns (j: nat)
    requires u <= e
    ensures Times(Times(k as real, Power(2, e)), Power(2, -u)) == j as real
  {
    j := k * NatPower(2, e - u);
    PowerTimes(2, e, -u);
    PowerIsNat(2, e - u);
    ThreeTimes(k as real, Power(2, e), Power(2, -u));
    assert k as real * NatPower(2, e - u) as real == j as real;
  }

  lemma {:induction false} ThreeTimes(x: real, y: real, z: real)
    ensures Times(Times(x, y), z) == Times(x, Times(y, z))
  {
    assert (x * y) * z == x * (y * z);
  }

  /** k units of two to the e reach at most the power of two 53 exponents up. */
  lemma {:induction false} AtMostTwo53(k: nat, e: int)
    requires k <= TWO53
    ensures Times(k as real, Power(2, e)) <= Power(2, e + 53)
    ensures Times(k as real, Power(2, e)) == Power(2, e + 53) ==> k == TWO53
  {
    PowersOfTwo();
    PowerTimes(2, 53, e);
    hide Power;
    TimesOrder(k as real, TWO53 as real, Power(2, e));
  }

  // ---------- rounding gives a double, and keeps doubles ----------

  /** Between two powers of two the number of units has 53 bits. */
  lemma {:induction false} UnitsBound(x: real)
    requires x > 0.0
    ensures UnitsOf(x) <= TWO53
  {
    var u, m := UnitOf(x), Magnitude(2, x);
    MagnitudeIs(2, x);
    PowersOfTwo();
    PowerGrows(2, m + 1, u + 53);
    PowerTimes(2, u + 53, -u);
    hide Power, Times, Magnitude;
    TimesOrder(x, Power(2, u + 53), Power(2, -u));
  }

  lemma {:induction false} RoundedIsDouble(x: real)
    ensures IsDouble(Rounded(x))
  {
    if x == 0.0 {
      assert Represents(0.0, 0, 0);
    } else {
      var k, u := UnitsOf(Abs(x)), UnitOf(Abs(x));
      UnitsBound(Abs(x));
      TimesPositive(k as real, Power(2, u));
      hide Power, Times, UnitsOf, UnitOf;
      assert Represents(Rounded(x), k, u);
    }
  }

  /** x is a whole number of its own units. */
  lemma {:induction false} DoubleUnits(x: real, k: nat, e: int) returns (j: nat)
    requires x > 0.0 && Represents(x, k, e)
    ensures Times(x, Power(2, -UnitOf(x))) == j as real
  {
    var u, m := UnitOf(x), Magnitude(2, x);
    MagnitudeIs(2, x);
    AtMostTwo53(k, e);
    hide Power, Times, Magnitude;
    if u <= e {
      j := UnitsWithin(k, e, u);
    } else {
      PowerStep(2, e + 53);
      AtLeastTwice(Power(2, e + 53));
      PowerReflects(2, m, e + 54);
      assert u == e + 1 && m == e + 53;
      j := UnitsWithin(1, m, u);
      TimesOne(Power(2, m));
    }
  }

  lemma {:induction false} AtLeastTwice(x: real)
    requires x > 0.0
    ensures x < Times(2.0, x)
  {}

  lemma {:induction false} DoublesStay(x: real)
    requires IsDouble(x)
    ensures Rounded(x) == x
  {
    if x == 0.0 {
    } else {
      var k: nat, e: int :| Represents(x, k, e);
      var y := Abs(x);
      var u := UnitOf(y);
      var j := DoubleUnits(y, k, e);
      NearestOf(j);
      PowerInverse(2, -u);
      hide Power, Times, UnitOf, Represents, Nearest;
      RoundedTo(y, j, Power(2, -u), Power(2, u));
      TimesPositive(j as real, Power(2, u));
      SignedAbs(x, Times(j as real, Power(2, u)));
    }
  }

  lemma {:induction false} RoundedNegative(x: real)
    ensures Rounded(-x) == -Rounded(x)
  {}

  // ---------- rounding is to the nearest double ----------

  /** Being nearest in units is being nearest. */
  lemma {:induction false} NearestInUnits(x: real, y: real, j: int, u: int)
    requires Times(y, Power(2, -u)) == j as real
    ensures Abs(Times(Nearest(Times(x, Power(2, -u))) as real, Power(2, u)) - x) <= Abs(y - x)
  {
    hide Power, Times, Nearest;
    var v, w := Power(2, u), Power(2, -u);
    var r := Nearest(Times(x, w));
    PowerInverse(2, -u);
    NearestIsNearest(Times(x, w), j);
    Regrouped(r as real, v, w);
    InUnits(x, y, w);
    InUnits(x, Times(r as real, v), w);
    TimesOrder(Abs(y - x), Abs(Times(r as real, v) - x), w);
  }

  /** No double is nearer to a positive x than the one it is rounded to. */
  lemma {:induction false} NearestPositive(x: real, y: real, k: nat, e: int)
    requires x > 0.0 && Represents(y, k, e)
    ensures Abs(Rounded(x) - x) <= Abs(Abs(y) - x)
  {
    var u, m := UnitOf(x), Magnitude(2, x);
    MagnitudeIs(2, x);
    AtMostTwo53(k, e);
    hide Power, Times, Magnitude, Nearest;
    if u <= e {
      var j := UnitsWithin(k, e, u);
      NearestInUnits(x, Abs(y), j, u);
    } else {
      // |y| is at most the power of two below x, which is a double too.
      var j := UnitsWithin(1, m, u);
      TimesOne(Power(2, m));
      PowerGrows(2, e + 53, m);
      NearestInUnits(x, Power(2, m), j, u);
    }
  }

  lemma {:induction false} OppositeSigns(x: real, y: real)
    requires x > 0.0
    ensures Abs(Abs(y) - x) <= Abs(y - x)
  {}

  /** No double is nearer to x than the one x is rounded to. */
  lemma {:induction false} RoundedIsNearest(x: real, y: real)
    requires IsDouble(y)
    ensures Abs(Rounded(x) - x) <= Abs(y - x)
  {
    var k: nat, e: int :| Represents(y, k, e);
    RoundedNegative(x);
    hide Rounded, Represents;
    if x > 0.0 {
      NearestPositive(x, y, k, e);
      OppositeSigns(x, y);
    } else if x < 0.0 {
      assert Represents(-y, k, e) by {
        NegativeRepresents(y, k, e);
      }
      NearestPositive(-x, -y, k, e);
      OppositeSigns(-x, -y);
    } else {
      RoundedNone();
    }
  }

  lemma {:induction false} RoundedNone()
    ensures Rounded(0.0) == 0.0
  {}

  lemma {:induction false} NegativeRepresents(x: real, k: nat, e: int)
    ensures Represents(-x, k, e) <==> Represents(x, k, e)
  {}

  // ---------- fractions ----------

  /** What k units of two to the e have behind the point. */
  lemma {:induction false} FractionUnits(k: nat, e: int, x: real) returns (j: nat)
    requires x == Times(k as real, Power(2, e)) && e < 0 && x >= 0.0
    ensures j <= k && x - x.Floor as real == Times(j as real, Power(2, e))
  {
    var n, f := NatPower(2, -e), x.Floor;
    PowerIsNat(2, -e);
    PowerInverse(2, e);
    hide Power, NatPower;
    WholePart(k, f, n, Power(2, e), x);
    j := k - f * n;
  }

  lemma {:induction false} WholePart(k: nat, f: nat, n: nat, u: real, x: real)
    requires x == Times(k as real, u) && Times(u, n as real) == 1.0 && u > 0.0 && f == x.Floor
    ensures f * n <= k && x - f as real == Times((k - f * n) as real, u)
  {
    assert Times((f * n) as real, u) == f as real by {
      assert (f * n) as real == f as real * n as real;
      assert (f as real * n as real) * u == f as real * (u * n as real);
    }
    TimesOrder((f * n) as real, k as real, u);
    assert Times((k - f * n) as real, u) == Times(k as real, u) - Times((f * n) as real, u);
  }

  /** The fraction behind the point is a double too. */
  lemma {:induction false} FractionIsDouble(x: real)
    requires IsDouble(x) && x >= 0.0
    ensures IsDouble(x - x.Floor as real)
  {
    var k: nat, e: int :| Represents(x, k, e);
    if e < 0 {
      var j := FractionUnits(k, e, x);
      TimesPositive(j as real, Power(2, e));
      assert Represents(x - x.Floor as real, j, e);
    } else {
      var j := UnitsWithin(k, e, 0);
      PowerNone(2);
      TimesOne(x);
      assert Represents(x - x.Floor as real, 0, 0);
    }
  }

  /** What is missing to the next integer is a double, or more than half. */
  lemma {:induction false} MissingIsDouble(x: real)
    requires IsDouble(x) && x >= 0.0
    ensures var m := 1.0 - (x - x.Floor as real); IsDouble(m) || m >= 0.5
  {
    var k: nat, e: int :| Represents(x, k, e);
    if e >= 0 {
      FractionIsDouble(x);
      var j := UnitsWithin(k, e, 0);
      PowerNone(2);
      TimesOne(x);
      TimesOne(1.0);
      assert Represents(1.0, 1, 0);
    } else if e >= -53 {
      var j := FractionUnits(k, e, x);
      MissingUnits(j, e, x - x.Floor as real);
    } else {
      AtMostTwo53(k, e);
      PowerNone(2);
      PowerInverse(2, 1);
      PowerGrows(2, e + 53, -1);
      hide Power, IsDouble;
      Reciprocal(Power(2, -1), Power(2, 1));
      Swapped(Power(2, -1), Power(2, 1));
    }
  }

  lemma {:induction false} MissingUnits(j: nat, e: int, x: real)
    requires -53 <= e < 0 && x == Times(j as real, Power(2, e)) && x < 1.0
    ensures IsDouble(1.0 - x)
  {
    var n, u := NatPower(2, -e), Power(2, e);
    PowerIsNat(2, -e);
    PowerInverse(2, e);
    PowersOfTwo();
    PowerGrows(2, -e, 53);
    hide Power, NatPower, IsDouble;
    Swapped(u, n as real);
    TimesOrder(j as real, n as real, u);
    TimesSum((n - j) as real, j as real, u);
    assert (n - j) as real + j as real == n as real;
    hide Times;
    UnitsAreDouble(1.0 - x, n - j, e);
  }

  lemma {:induction false} UnitsAreDouble(x: real, k: nat, e: int)
    requires x >= 0.0 && x == Times(k as real, Power(2, e)) && k <= TWO53 && e >= LEAST
    ensures IsDouble(x)
  {
    assert Represents(x, k, e);
  }

  lemma {:induction false} AbsIsDouble(x: real)
    requires IsDouble(x)
    ensures IsDouble(Abs(x)) && IsDouble(-x)
  {
    var k: nat, e: int :| Represents(x, k, e);
    assert Represents(Abs(x), k, e) && Represents(-x, k, e);
  }

  /** Rounding does not pass a double. */
  lemma {:induction false} RoundedStaysAbove(x: real, y: real)
    requires IsDouble(y) && y <= x
    ensures y <= Rounded(x)
  {
    hide Rounded, IsDouble;
    RoundedIsNearest(x, y);
  }

  // ---------- how far rounding goes ----------

  lemma {:induction false} HalfUnit(e: real, w: real, v: real)
    requires Times(e, w) <= 0.5 && Times(v, w) == 1.0 && v > 0.0
    ensures 2.0 * e <= v
  {
    hide Times;
    Regrouped(e, w, v);
    TimesOrder(Times(e, w), 0.5, v);
    HalfIs(v);
  }

  lemma {:induction false} HalfIs(v: real)
    ensures Times(0.5, v) == 0.5 * v
  {}

  lemma {:induction false} DoubledOrder(e: real, v: real)
    requires 2.0 * e <= v
    ensures Times(9_007_199_254_740_992.0, e) <= Times(4_503_599_627_370_496.0, v)
  {}

  /** Rounding changes a number that is not too small by at most one part in two to the 53rd. */
  lemma {:induction false} RelativeError(x: real)
    requires Power(2, -1022) <= x
    ensures Times(TWO53 as real, Abs(Rounded(x) - x)) <= x
  {
    var m := Magnitude(2, x);
    var u := m - 52;
    MagnitudeIs(2, x);
    PowerReflects(2, -1022, m + 1);
    assert UnitOf(x) == u;
    var k, v, w := UnitsOf(x), Power(2, u), Power(2, -u);
    assert Rounded(x) == Times(k as real, v);
    PowerInverse(2, u);
    PowerInverse(2, -u);
    hide Power, Times, Magnitude, UnitsOf, UnitOf, Rounded;
    RoundedTo(x, k, w, v);
    HalfUnit(Abs(Times(k as real, v) - x), w, v);
    DoubledOrder(Abs(Times(k as real, v) - x), v);
    PowersOfTwo();
    PowerTimes(2, 52, u);
  }

  /** At worst rounding doubles a number. */
  lemma {:induction false} RoundedAtMostTwice(x: real)
    requires x >= 0.0
    ensures 0.0 <= Rounded(x) <= 2.0 * x
  {
    assert Represents(0.0, 0, 0);
    RoundedIsNearest(x, 0.0);
    if x > 0.0 {
      TimesPositive(UnitsOf(x) as real, Power(2, UnitOf(x)));
    }
    hide Power, Times, UnitsOf, UnitOf;
  }

  // ---------- some doubles ----------

  lemma {:induction false} LeastDouble(x: real)
    requires IsDouble(x) && x != 0.0
    ensures Power(2, LEAST) <= Abs(x)
  {
    var k: nat, e: int :| Represents(x, k, e);
    hide Power, Times;
    PowerGrows(2, LEAST, e);
    AtLeastOne(k, Power(2, e));
  }

  lemma {:induction false} AtLeastOne(k: nat, x: real)
    requires x > 0.0 && Times(k as real, x) != 0.0
    ensures x <= Times(k as real, x)
  {
    assert k != 0;
    TimesOne(x);
    TimesOrder(1.0, k as real, x);
  }

  lemma {:induction false} WholeFloor(x: real, j: nat)
    requires Abs(x) == j as real
    ensures x.Floor as real == x
  {
    var n: int := j;
    assert x == n as real || x == (-n) as real;
  }

  /** Doubles of more than 53 bits before the point have none behind it. */
  lemma {:induction false} LargeWhole(x: real)
    requires IsDouble(x) && Abs(x) >= TWO53 as real
    ensures x.Floor as real == x
  {
    var k: nat, e: int :| Represents(x, k, e);
    AtMostTwo53(k, e);
    PowersOfTwo();
    PowerNone(2);
    hide Power, Times;
    if e < 0 {
      PowerStep(2, 52);
      AtLeastTwice(Power(2, 52));
      PowerGrows(2, e + 53, 52);
      assert false;
    } else {
      var j := UnitsWithin(k, e, 0);
      TimesOne(Abs(x));
      WholeFloor(x, j);
    }
  }

  /** Integers of at most 53 bits are doubles. */
  lemma {:induction false} IntegersStay(m: int)
    requires -TWO53 <= m <= TWO53
    ensures Rounded(m as real) == m as real
  {
    var k := if m < 0 then -m else m;
    PowerNone(2);
    TimesOne(k as real);
    assert Represents(m as real, k, 0);
    DoublesStay(m as real);
  }

  /** Between the powers of two around 53 bits of the unit, the units can be read off. */
  lemma {:induction false} RoundedIs(x: real, z: real, k: nat, e: int)
    requires e >= LEAST && x > 0.0 && Power(2, e + 52) <= x < Power(2, e + 53)
    requires Times(z, Power(2, e)) == x && Nearest(z) == k
    ensures Rounded(x) == Times(k as real, Power(2, e))
  {
    MagnitudeUnique(2, x, e + 52);
    PowerInverse(2, -e);
    Regrouped(z, Power(2, e), Power(2, -e));
    hide Power, Times, Nearest, Magnitude;
  }

  /** The double nearest to a millionth. */
  const MICRO: real := 4722366482869645.0 / 4722366482869645213696.0

  lemma {:induction false} SmallPowers()
    ensures Power(2, 20) == 1_048_576.0 && Power(10, 6) == 1_000_000.0
  {
    assert NatPower(2, 10) == 1024 && NatPower(10, 3) == 1000;
    PowerIsNat(2, 10);
    PowerIsNat(10, 3);
    hide Power, NatPower;
    PowerTimes(2, 10, 10);
    PowerTimes(10, 3, 3);
  }

  /** The powers between which a millionth lies, and the one in which its units are counted. */
  lemma {:induction false} AroundMicro()
    ensures Power(2, -20) == 1.0 / 1_048_576.0 && Power(2, -19) == 1.0 / 524_288.0
    ensures Power(10, -6) == 1.0 / 1_000_000.0
    ensures Power(2, 72) == 4_722_366_482_869_645_213_696.0
  {
    hide Power;
    SmallPowers();
    PowersOfTwo();
    PowerTimes(2, 52, 20);
    PowerInverse(2, -20);
    PowerInverse(10, -6);
    PowerStep(2, -20);
  }

  lemma {:induction false} MicroUnits()
    ensures Nearest(4_722_366_482_869_645.213696) == 4_722_366_482_869_645
  {}

  lemma {:induction false} MicroIs()
    ensures Rounded(Power(10, -6)) == MICRO
  {
    var k, z := 4_722_366_482_869_645, 4_722_366_482_869_645.213696;
    AroundMicro();
    MicroUnits();
    PowerInverse(2, -72);
    Reciprocal(Power(2, -72), Power(2, 72));
    hide Power, Rounded, Nearest;
    assert Times(z, 1.0 / 4_722_366_482_869_645_213_696.0) == 1.0 / 1_000_000.0;
    assert Times(k as real, 1.0 / 4_722_366_482_869_645_213_696.0) == MICRO;
    hide Times;
    RoundedIs(Power(10, -6), z, k, -72);
  }
}
