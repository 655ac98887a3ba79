/** The bitwise operators of C's unsigned words, on the numbers the words hold, and the UTF-8 and
    surrogate arithmetic that comes out of them. */
module Bits {
  import opened Unicode

  /** x & y */
  function And(x: nat, y: nat): nat {
    if x == 0 || y == 0 then 0
    else 2 * And(x / 2, y / 2) + if x % 2 == 1 && y % 2 == 1 then 1 else 0
  }

  /** x | y */
  function Or(x: nat, y: nat): nat
    decreases x + y
  {
    if x == 0 then y
    else if y == 0 then x
    else 2 * Or(x / 2, y / 2) + if x % 2 == 1 || y % 2 == 1 then 1 else 0
  }

  /** x << k */
  function Shl(x: nat, k: nat): nat {
    if k == 0 then x else 2 * Shl(x, k - 1)
  }

  lemma {:induction false} AndStep(x: nat, y: nat, a: nat, b: nat)
    requires a < 2 && b < 2
    ensures And(2 * x + a, 2 * y + b) == 2 * And(x, y) + if a == 1 && b == 1 then 1 else 0
  {
    assert (2 * x + a) / 2 == x && (2 * x + a) % 2 == a;
    assert (2 * y + b) / 2 == y && (2 * y + b) % 2 == b;
  }

  function OrBit(a: nat, b: nat): nat {
    if a == 1 || b == 1 then 1 else 0
  }

  lemma {:induction false} OrStep(x: nat, y: nat, a: nat, b: nat)
    requires a < 2 && b < 2
    ensures Or(2 * x + a, 2 * y + b) == 2 * Or(x, y) + OrBit(a, b)
  {
    assert (2 * x + a) / 2 == x && (2 * x + a) % 2 == a;
    assert (2 * y + b) / 2 == y && (2 * y + b) % 2 == b;
  }

  lemma {:induction false} AndZero()
    ensures And(0, 0) == 0
  {}

  lemma {:induction false} OrZero(z: nat)
    ensures Or(z, 0) == z && Or(0, z) == z
  {}

  lemma {:induction false} ShlNext(x: nat, k: nat)
    requires k > 0
    ensures Shl(x, k) == 2 * Shl(x, k - 1)
  {}

  lemma {:induction false} Halves(r: nat, b: nat)
    requires r < 2 * b
    ensures r == 2 * (r / 2) + r % 2 && r / 2 < b && r % 2 < 2
  {}

  /** The high parts and the low k bits are combined separately. */
  lemma {:induction false} AndParts(x: nat, r: nat, y: nat, s: nat, k: nat)
    requires r < Shl(1, k) && s < Shl(1, k)
    ensures And(Shl(x, k) + r, Shl(y, k) + s) == Shl(And(x, y), k) + And(r, s)
    decreases k
  {
    AndZero();
    hide And;
    if k == 0 {
    } else {
      var x', y' := Shl(x, k - 1) + r / 2, Shl(y, k - 1) + s / 2;
      Halves(r, Shl(1, k - 1));
      Halves(s, Shl(1, k - 1));
      AndStep(x', y', r % 2, s % 2);
      AndStep(r / 2, s / 2, r % 2, s % 2);
      AndParts(x, r / 2, y, s / 2, k - 1);
    }
  }

  lemma {:induction false} OrParts(x: nat, r: nat, y: nat, s: nat, k: nat)
    requires r < Shl(1, k) && s < Shl(1, k)
    ensures Or(Shl(x, k) + r, Shl(y, k) + s) == Shl(Or(x, y), k) + Or(r, s)
    decreases k
  {
    OrZero(0);
    hide Or;
    if k == 0 {
    } else {
      ShlNext(1, k);
      Halves(r, Shl(1, k - 1));
      Halves(s, Shl(1, k - 1));
      OrParts(x, r / 2, y, s / 2, k - 1);
      OrPartsStep(x, r / 2, y, s / 2, r % 2, s % 2, k);
    }
  }

  lemma {:induction false} OrPartsStep(x: nat, r: nat, y: nat, s: nat, a: nat, b: nat, k: nat)
    requires k > 0 && a < 2 && b < 2
    requires Or(Shl(x, k - 1) + r, Shl(y, k - 1) + s) == Shl(Or(x, y), k - 1) + Or(r, s)
    ensures Or(Shl(x, k) + (2 * r + a), Shl(y, k) + (2 * s + b)) == Shl(Or(x, y), k) + Or(2 * r + a, 2 * s + b)
  {
    hide Or, OrBit, Shl;
    ShlNext(x, k);
    ShlNext(y, k);
    ShlNext(Or(x, y), k);
    OrStep(Shl(x, k - 1) + r, Shl(y, k - 1) + s, a, b);
    OrStep(r, s, a, b);
  }

  /** A mask of k ones keeps the low k bits. */
  lemma {:induction false} AndOnes(r: nat, k: nat)
    requires r < Shl(1, k)
    ensures And(r, Shl(1, k) - 1) == r
    decreases k
  {
    if k == 0 {
    } else {
      AndOnes(r / 2, k - 1);
      AndStep(r / 2, Shl(1, k - 1) - 1, r % 2, 1);
    }
  }

  lemma {:induction false} Shifts(x: nat)
    ensures Shl(x, 3) == 8 * x && Shl(x, 4) == 16 * x && Shl(x, 6) == 64 * x && Shl(x, 10) == 1024 * x
  {
    assert Shl(x, 3) == 2 * Shl(x, 2) && Shl(x, 2) == 2 * Shl(x, 1) && Shl(x, 1) == 2 * x;
    assert Shl(x, 6) == 2 * Shl(x, 5) && Shl(x, 5) == 2 * Shl(x, 4) && Shl(x, 4) == 2 * Shl(x, 3);
    assert Shl(x, 10) == 2 * Shl(x, 9) && Shl(x, 9) == 2 * Shl(x, 8) && Shl(x, 8) == 2 * Shl(x, 7);
    assert Shl(x, 7) == 2 * Shl(x, 6);
  }

  lemma {:induction false} Or6(x: nat, r: nat, y: nat, s: nat)
    requires r < 64 && s < 64
    ensures Or(64 * x + r, 64 * y + s) == 64 * Or(x, y) + Or(r, s)
  {
    Shifts(1);
    Shifts(x);
    Shifts(y);
    Shifts(Or(x, y));
    OrParts(x, r, y, s, 6);
  }

  lemma {:induction false} And6(x: nat, r: nat, y: nat, s: nat)
    requires r < 64 && s < 64
    ensures And(64 * x + r, 64 * y + s) == 64 * And(x, y) + And(r, s)
    ensures And(r, 63) == r
  {
    Shifts(1);
    Shifts(x);
    Shifts(y);
    Shifts(And(x, y));
    AndParts(x, r, y, s, 6);
    AndOnes(r, 6);
  }

  lemma {:induction false} Or10(x: nat, r: nat, y: nat, s: nat)
    requires r < 1024 && s < 1024
    ensures Or(1024 * x + r, 1024 * y + s) == 1024 * Or(x, y) + Or(r, s)
  {
    Shifts(1);
    Shifts(x);
    Shifts(y);
    Shifts(Or(x, y));
    OrParts(x, r, y, s, 10);
  }

  lemma {:induction false} AndTwo(z: nat)
    ensures And(Or(z, 2), 2) == 2
  {
    var a, b := z / 2, z % 2;
    OrStep(a, 1, b, 0);
    OrStep(a / 2, 0, a % 2, 1);
    AndStep(Or(a, 1), 1, b, 0);
    AndStep(Or(a / 2, 0), 0, 1, 1);
  }

  /** (uc | 0x80) & 0xBF is a UTF-8 continuation byte with the low six bits of uc. */
  lemma {:induction false} Continuation(uc: nat)
    ensures And(Or(uc, 0x80), 0xBF) == 0x80 + uc % 64
  {
    var q, r := uc / 64, uc % 64;
    Or6(q, r, 2, 0);
    And6(Or(q, 2), r, 2, 63);
    AndTwo(q);
  }

  /** A mark above the bits of uc. */
  lemma {:induction false} OrAbove(uc: nat, mark: nat, k: nat)
    requires uc < Shl(1, k)
    ensures Or(uc, Shl(mark, k)) == Shl(mark, k) + uc
  {
    OrZero(mark);
    OrZero(uc);
    hide Or;
    OrParts(0, uc, mark, 0, k);
    ShlZero(k);
  }

  lemma {:induction false} ShlZero(k: nat)
    ensures Shl(0, k) == 0
  {
    if k == 0 {
    } else {
      ShlZero(k - 1);
    }
  }

  /** uc | firstByteMark[n] is a UTF-8 first byte. */
  lemma {:induction false} FirstByte(uc: nat)
    ensures Or(uc, 0) == uc
    ensures uc < 32 ==> Or(uc, 0xC0) == 0xC0 + uc
    ensures uc < 16 ==> Or(uc, 0xE0) == 0xE0 + uc
    ensures uc < 8 ==> Or(uc, 0xF0) == 0xF0 + uc
  {
    OrZero(uc);
    hide Or, Shl;
    Shifts(1);
    Shifts(3);
    Shifts(14);
    Shifts(30);
    if uc < 32 {
      OrAbove(uc, 3, 6);
    }
    if uc < 16 {
      OrAbove(uc, 14, 4);
    }
    if uc < 8 {
      OrAbove(uc, 30, 3);
    }
  }

  lemma {:induction false} OrOne(z: nat)
    ensures Or(1, z) == if z % 2 == 1 then z else z + 1
  {
    OrStep(0, z / 2, 1, z % 2);
  }

  lemma {:induction false} OrSixtyFour(x: nat)
    ensures Or(64, x) == if x / 64 % 2 == 1 then x else x + 64
  {
    Or6(1, 0, x / 64, x % 64);
    OrOne(x / 64);
    assert Or(0, x % 64) == x % 64;
  }

  /** The low ten bits. */
  lemma {:induction false} LowTen(u: nat)
    ensures And(u, 0x3FF) == u % 1024
  {
    Shifts(1);
    Shifts(u / 1024);
    Shifts(0);
    AndParts(u / 1024, u % 1024, 0, 1023, 10);
    AndOnes(u % 1024, 10);
  }

  /** 0x10000 | ((hi & 0x3FF) << 10) | (lo & 0x3FF) */
  function PairWord(hi: nat, lo: nat): nat {
    Or(Or(0x1_0000, And(hi, 0x3FF) * 1024), And(lo, 0x3FF))
  }

  lemma {:induction false} OrTenBits(w: nat, y: nat)
    requires y < 1024
    ensures Or(1024 * w, y) == 1024 * w + y
  {
    Or10(w, 0, 0, y);
    assert Or(w, 0) == w && Or(0, y) == y;
  }

  lemma {:induction false} OrHighBit(x: nat, w: nat)
    requires w == 1024 * 64
    ensures Or(w, x * 1024) == 1024 * if x / 64 % 2 == 1 then x else x + 64
  {
    Or10(64, 0, x, 0);
    OrSixtyFour(x);
    assert Or(0, 0) == 0;
  }

  lemma {:induction false} TenBitsOf(hi: nat, lo: nat)
    requires IsHigh(hi) && IsLow(lo)
    ensures hi % 1024 == hi - 0xD800 && lo % 1024 == lo - 0xDC00
    ensures hi / 64 % 2 == (hi - 0xD800) / 64 % 2
  {}

  /** What the bitwise expression of the parser computes for a surrogate pair. */
  lemma {:induction false} PairWordIs(hi: nat, lo: nat)
    requires IsHigh(hi) && IsLow(lo)
    ensures PairWord(hi, lo) == OredPair(hi, lo)
  {
    hide And, Or;
    LowTen(hi);
    LowTen(lo);
    var x, y := hi - 0xD800, lo - 0xDC00;
    TenBitsOf(hi, lo);
    OrHighBit(x, 0x1_0000);
    OrTenBits(if x / 64 % 2 == 1 then x else x + 64, y);
  }

  /** For surrogate halves, the parser's code point is the UTF-16 one exactly when bit 6 of the
      high half is clear. */
  lemma {:induction false} SurrogatePairExact(hi: nat, lo: nat)
    requires IsHigh(hi) && IsLow(lo)
    ensures PairWord(hi, lo) == Utf16Pair(hi, lo) <==> !Bit6(hi)
  {
    PairWordIs(hi, lo);
    PairExact(hi, lo);
  }
}
