/** Real numbers: rounding to integers, powers, and the power of a base at which a number starts. */
module Reals {
  /** Products by name, so that a proof can do without their arithmetic. */
  function Times(x: real, y: real): real {
    x * y
  }

  lemma {:induction false} TimesBy(c: real, x: real, y: real)
    ensures Times(Times(c, x), y) == Times(c, Times(x, y)) == Times(x, Times(c, y))
  {
    assert (c * x) * y == c * (x * y);
    assert x * (c * y) == c * (x * y);
  }

  lemma {:induction false} TimesSum(d: real, f: real, x: real)
    ensures Times(d + f, x) == Times(d, x) + Times(f, x)
  {}

  lemma {:induction false} TimesOne(x: real)
    ensures Times(x, 1.0) == x && Times(1.0, x) == x
  {}

  lemma {:induction false} TimesPositive(x: real, y: real)
    requires x >= 0.0 && y > 0.0
    ensures Times(x, y) >= 0.0 && (x > 0.0 ==> Times(x, y) > 0.0)
  {}

  lemma {:induction false} TimesOrder(x: real, y: real, u: real)
    requires u > 0.0
    ensures x < y <==> Times(x, u) < Times(y, u)
    ensures x <= y <==> Times(x, u) <= Times(y, u)
  {
    assert (y - x) * u == y * u - x * u;
    if x < y {
      assert (y - x) * u > 0.0;
    } else if y < x {
      assert (x - y) * u > 0.0;
      assert (x - y) * u == x * u - y * u;
    }
  }

  function Abs(x: real): real {
    if x >= 0.0 then x else -x
  }

  /** Towards zero, as the conversion of a double to an int. */
  function Trunc(x: real): int {
    if x >= 0.0 then x.Floor else -(-x).Floor
  }

  /** To the nearest integer, ties to the even one. */
  function Nearest(x: real): (n: int)
    ensures Abs(n as real - x) <= 0.5
    ensures n as real == x <==> x.Floor as real == x
    ensures x >= 0.0 ==> n >= 0
  {
    var rest := x - x.Floor as real;
    if rest < 0.5 || (rest == 0.5 && x.Floor % 2 == 0) then x.Floor else x.Floor + 1
  }

  lemma {:induction false} Apart(n: int, j: int)
    requires n != j
    ensures Abs(n as real - j as real) >= 1.0
  {}

  /** No integer is nearer. */
  lemma {:induction false} NearestIsNearest(x: real, j: int)
    ensures Abs(Nearest(x) as real - x) <= Abs(j as real - x)
  {
    hide Nearest;
    var n := Nearest(x);
    if n != j {
      Apart(n, j);
    }
  }

  lemma {:induction false} NearestOf(n: int)
    ensures Nearest(n as real) == n && (n as real).Floor == n
  {}

  // ---------- powers ----------

  /** b to the k. */
  function NatPower(b: nat, k: nat): (n: nat)
    requires b > 0
    ensures n > 0
  {
    if k == 0 then 1 else b * NatPower(b, k - 1)
  }

  /** b to the e, which may be negative. */
  function Power(b: nat, e: int): (r: real)
    requires b > 0
    ensures r > 0.0
    decreases if e < 0 then -e else e
  {
    if e == 0 then 1.0
    else if e > 0 then TimesPositive(b as real, Power(b, e - 1)); Times(b as real, Power(b, e - 1))
    else Power(b, e + 1) / b as real
  }

  lemma {:induction false} Divided(x: real, b: real)
    requires b > 0.0
    ensures Times(b, x / b) == x
  {}

  lemma {:induction false} PowerStep(b: nat, e: int)
    requires b > 0
    ensures Power(b, e + 1) == Times(b as real, Power(b, e))
  {
    if e + 1 > 0 {
    } else {
      Divided(Power(b, e + 1), b as real);
    }
  }

  lemma {:induction false} PowerNone(b: nat)
    requires b > 0
    ensures Power(b, 0) == 1.0 && Power(b, 1) == b as real
  {
    TimesOne(b as real);
  }

  lemma {:induction false} PowerAdd(b: nat, a: int, n: nat)
    requires b > 0
    ensures Times(Power(b, a - n), Power(b, n)) == Power(b, a)
  {
    PowerNone(b);
    hide Times, Power;
    if n == 0 {
      TimesOne(Power(b, a));
    } else {
      PowerAdd(b, a, n - 1);
      PowerStep(b, a - n);
      PowerStep(b, n - 1);
      TimesBy(b as real, Power(b, a - n), Power(b, n - 1));
    }
  }

  lemma {:induction false} Swapped(x: real, y: real)
    ensures Times(x, y) == Times(y, x)
  {}

  lemma {:induction false} PowerTimes(b: nat, a: int, c: int)
    requires b > 0
    ensures Times(Power(b, a), Power(b, c)) == Power(b, a + c)
  {
    if c >= 0 {
      PowerAdd(b, a + c, c);
    } else {
      PowerAdd(b, a, -c);
      PowerInverse(b, c);
      Regrouped(Power(b, a + c), Power(b, -c), Power(b, c));
    }
  }

  lemma {:induction false} PowerInverse(b: nat, e: int)
    requires b > 0
    ensures Times(Power(b, e), Power(b, -e)) == 1.0
  {
    PowerAdd(b, 0, if e >= 0 then e else -e);
    Swapped(Power(b, e), Power(b, -e));
  }

  lemma {:induction false} PowerGrows(b: nat, a: int, c: int)
    requires b > 0 && a <= c
    ensures Power(b, a) <= Power(b, c)
    decreases c - a
  {
    if a == c {
    } else {
      PowerStep(b, c - 1);
      AtLeastOnce(b, Power(b, c - 1));
      PowerGrows(b, a, c - 1);
    }
  }

  lemma {:induction false} PowerReflects(b: nat, a: int, c: int)
    requires b > 0 && Power(b, a) < Power(b, c)
    ensures a < c
  {
    if a >= c {
      PowerGrows(b, c, a);
    }
  }

  lemma {:induction false} AtLeastOnce(b: nat, x: real)
    requires b > 0 && x > 0.0
    ensures x <= Times(b as real, x)
  {}

  lemma {:induction false} PowerIsNat(b: nat, k: nat)
    requires b > 0
    ensures Power(b, k) == NatPower(b, k) as real
  {
    if k == 0 {
    } else {
      PowerIsNat(b, k - 1);
      assert NatPower(b, k) as real == b as real * NatPower(b, k - 1) as real;
    }
  }

  // ---------- magnitudes ----------

  /** The largest e for which b to the e is at most x. */
  function Magnitude(b: nat, x: real): int
    requires b >= 2 && x > 0.0
  {
    if x >= 1.0 then MagnitudeUp(b, x) else MagnitudeDown(b, x)
  }

  function MagnitudeUp(b: nat, x: real): nat
    requires b >= 2 && x >= 1.0
    decreases x.Floor
  {
    if x < b as real then 0 else Smaller(b, x); 1 + MagnitudeUp(b, x / b as real)
  }

  lemma {:induction false} Smaller(b: nat, x: real)
    requires b >= 2 && x >= b as real
    ensures 1.0 <= x / b as real <= x / 2.0 && (x / b as real).Floor < x.Floor
  {
    var y := x / b as real;
    assert y * b as real == x;
    assert y >= 1.0 && y * 2.0 <= x;
  }

  function MagnitudeDown(b: nat, x: real): int
    requires b >= 2 && x > 0.0
    decreases (1.0 / x).Floor
  {
    if x >= 1.0 then 0 else Larger(b, x); MagnitudeDown(b, Times(b as real, x)) - 1
  }

  lemma {:induction false} Reciprocal(w: real, d: real)
    requires d > 0.0 && Times(w, d) == 1.0
    ensures 1.0 / d == w
  {}

  lemma {:induction false} InverseIs(x: real)
    requires x > 0.0
    ensures Times(1.0 / x, x) == 1.0 && (x < 1.0 ==> 1.0 / x > 1.0)
  {
    Divided(1.0, x);
    Swapped(1.0 / x, x);
    TimesOrder(1.0, 1.0 / x, x);
    TimesOne(x);
  }

  lemma {:induction false} Portion(b: nat, y: real)
    requires b >= 2 && y > 0.0
    ensures Times(b as real, y / b as real) == y && 0.0 < y / b as real && 2.0 * (y / b as real) <= y
  {
    Divided(y, b as real);
  }

  lemma {:induction false} HalfFloor(y: real, z: real)
    requires y >= 1.0 && z >= 0.0 && 2.0 * z <= y
    ensures z.Floor < y.Floor
  {}

  lemma {:induction false} Larger(b: nat, x: real)
    requires b >= 2 && 0.0 < x < 1.0
    ensures 0.0 < Times(b as real, x) < b as real && (1.0 / Times(b as real, x)).Floor < (1.0 / x).Floor
  {
    hide Times;
    var c, y := b as real, 1.0 / x;
    InverseIs(x);
    Portion(b, y);
    TimesBy(c, y / c, x);
    TimesPositive(c, x);
    Reciprocal(y / c, Times(c, x));
    HalfFloor(y, y / c);
    TimesOrder(x, 1.0, c);
    TimesOne(c);
    Swapped(x, c);
  }

  lemma {:induction false} MagnitudeIs(b: nat, x: real)
    requires b >= 2 && x > 0.0
    ensures Power(b, Magnitude(b, x)) <= x < Power(b, Magnitude(b, x) + 1)
  {
    if x >= 1.0 {
      MagnitudeUpIs(b, x);
    } else {
      MagnitudeDownIs(b, x);
    }
  }

  lemma {:induction false} MagnitudeUpIs(b: nat, x: real)
    requires b >= 2 && x >= 1.0
    ensures Power(b, MagnitudeUp(b, x)) <= x < Power(b, MagnitudeUp(b, x) + 1)
    decreases x.Floor
  {
    if x < b as real {
      PowerNone(b);
    } else {
      Smaller(b, x);
      var y, e := x / b as real, MagnitudeUp(b, x / b as real);
      MagnitudeUpIs(b, y);
      Scaled(b, Power(b, e), y, Power(b, e + 1));
      PowerStep(b, e);
      PowerStep(b, e + 1);
      Divided(x, b as real);
    }
  }

  lemma {:induction false} Scaled(b: nat, a: real, x: real, c: real)
    requires b > 0
    ensures a <= x < c <==> Times(b as real, a) <= Times(b as real, x) < Times(b as real, c)
  {
    TimesOrder(a, x, b as real);
    TimesOrder(x, c, b as real);
    Swapped(a, b as real);
    Swapped(x, b as real);
    Swapped(c, b as real);
  }

  lemma {:induction false} MagnitudeDownIs(b: nat, x: real)
    requires b >= 2 && 0.0 < x < b as real
    ensures Power(b, MagnitudeDown(b, x)) <= x < Power(b, MagnitudeDown(b, x) + 1)
    decreases (1.0 / x).Floor
  {
    if x >= 1.0 {
      PowerNone(b);
    } else {
      Larger(b, x);
      var e := MagnitudeDown(b, Times(b as real, x));
      MagnitudeDownIs(b, Times(b as real, x));
      PowerStep(b, e - 1);
      PowerStep(b, e);
      Scaled(b, Power(b, e - 1), x, Power(b, e));
    }
  }

  lemma {:induction false} MagnitudeUnique(b: nat, x: real, e: int)
    requires b >= 2 && x > 0.0 && Power(b, e) <= x < Power(b, e + 1)
    ensures Magnitude(b, x) == e
  {
    var m := Magnitude(b, x);
    MagnitudeIs(b, x);
    PowerReflects(b, m, e + 1);
    PowerReflects(b, e, m + 1);
  }

  // ---------- rounding to units ----------

  /** In units of which u make one. */
  lemma {:induction false} InUnits(x: real, y: real, u: real)
    requires u > 0.0
    ensures Times(Abs(y - x), u) == Abs(Times(y, u) - Times(x, u))
    ensures y == x <==> Times(y, u) == Times(x, u)
  {
    TimesOrder(x, y, u);
    TimesOrder(y, x, u);
    assert (y - x) * u == y * u - x * u;
    assert (x - y) * u == x * u - y * u;
  }

  lemma {:induction false} Regrouped(k: real, v: real, u: real)
    requires Times(u, v) == 1.0
    ensures Times(Times(k, v), u) == k
  {
    assert (k * v) * u == k * (u * v);
  }

  /** Rounding to k units of which u make one, where v is the size of a unit. */
  lemma {:induction false} RoundedTo(x: real, k: int, u: real, v: real)
    requires Times(u, v) == 1.0 && u > 0.0 && v > 0.0 && Abs(k as real - Times(x, u)) <= 0.5
    ensures Times(Abs(Times(k as real, v) - x), u) <= 0.5
    ensures Times(k as real, v) == x <==> k as real == Times(x, u)
  {
    hide Times;
    Regrouped(k as real, v, u);
    InUnits(x, Times(k as real, v), u);
  }

  function WithSign(negative: bool, y: real): real {
    if negative then -y else y
  }

  lemma {:induction false} SignedAbs(x: real, y: real)
    requires y >= 0.0
    ensures Abs(WithSign(x < 0.0, y) - x) == Abs(y - Abs(x))
    ensures WithSign(x < 0.0, y) == x <==> y == Abs(x)
  {}
}
