/** The number texts that parse_number takes, which are more than the grammar has. */
module NumberSyntax {
  import opened Bytes
  import opened CText
  import opened Seqs
  import opened JsonNumber

  /** A minus, a zero, digits that do not begin with zero, a point with digits behind it, and an exponent
      that need not have digits: any of them may be missing. */
  datatype Loose = Loose(negative: bool, zero: bool, digits: bytes, frac: bytes, exp: ExpPart)

  /** But the first character is a minus or a digit. */
  predicate IsNumber(n: Loose) {
    && (n.negative || n.zero || n.digits != [])
    && AllDigits(n.digits) && (n.digits != [] ==> n.digits[0] != ZERO)
    && AllDigits(n.frac)
    && (n.exp.Exp? ==>
          && (n.exp.marker == LOWER_E || n.exp.marker == UPPER_E)
          && (n.exp.sign == [] || n.exp.sign == [PLUS] || n.exp.sign == [MINUS])
          && AllDigits(n.exp.digits))
  }

  function SignText(negative: bool): bytes {
    if negative then [MINUS] else []
  }

  function ZeroText(zero: bool): bytes {
    if zero then [ZERO] else []
  }

  function LooseText(n: Loose): bytes {
    SignText(n.negative) + (ZeroText(n.zero) + (n.digits + (FracText(n.frac) + ExpText(n.exp))))
  }

  /** The digits before and behind the point, less one in the exponent for each of the latter. */
  function LooseDecimal(n: Loose): (d: Decimal)
    requires IsNumber(n)
    ensures AllDigits(d.digits)
  {
    AllDigitsConcat(n.digits, n.frac);
    Decimal(n.negative, n.digits + n.frac, ExpValue(n.exp) - |n.frac|)
  }

  lemma {:induction false} LooseChars(n: Loose)
    requires IsNumber(n)
    ensures LooseText(n) != [] && (IsDigit(LooseText(n)[0]) || LooseText(n)[0] == MINUS)
    ensures forall i :: 0 <= i < |LooseText(n)| ==> NumberChar(LooseText(n)[i])
  {
    assert forall i :: 0 <= i < |FracText(n.frac)| ==> NumberChar(FracText(n.frac)[i]);
    assert forall i :: 0 <= i < |ExpText(n.exp)| ==> NumberChar(ExpText(n.exp)[i]);
    var rest := n.digits + (FracText(n.frac) + ExpText(n.exp));
    assert forall i :: 0 <= i < |rest| ==> NumberChar(rest[i]);
    assert forall i :: 0 <= i < |ZeroText(n.zero) + rest| ==> NumberChar((ZeroText(n.zero) + rest)[i]);
  }

  /** Every number of the grammar is one of them, with the same digits. */
  lemma {:induction false} GrammaticalIsLoose(n: NumberText) returns (m: Loose)
    requires Grammatical(n)
    ensures IsNumber(m) && LooseText(m) == Text(n) && LooseDecimal(m) == Accumulated(n)
  {
    m := Loose(n.negative, n.int_ == [ZERO], IntDigits(n), n.frac, n.exp);
    var a, b, c := SignText(n.negative), FracText(n.frac), ExpText(n.exp);
    assert IntText(n) == a + n.int_;
    if n.int_ == [ZERO] {
      NothingBefore(b + c);
    } else {
      NothingBefore(n.int_ + (b + c));
    }
    Assoc4(a, n.int_, b, c);
  }

  // ---------- what the reader takes is such a text ----------

  /** The number that the reader takes at p. */
  function Taken(s: bytes, p: nat): Loose
    requires p <= |s|
  {
    var i := IntRun(s, p);
    var f := FracRun(s, i.to);
    var e := ExpRun(s, f.to);
    var i0 := if Peek(s, p) == MINUS then p + 1 else p;
    Loose(Peek(s, p) == MINUS, Peek(s, i0) == ZERO, s[i.from..i.to], s[f.from..f.to], TakenExp(s, f.to))
  }

  function TakenExp(s: bytes, p: nat): ExpPart
    requires p <= |s|
  {
    var e := ExpRun(s, p);
    if Peek(s, p) == LOWER_E || Peek(s, p) == UPPER_E then
      Exp(Peek(s, p),
          if Peek(s, p + 1) == PLUS || Peek(s, p + 1) == MINUS then [Peek(s, p + 1)] else [],
          s[e.from..e.to])
    else
      NoExp
  }

  lemma {:induction false} TakenExpStands(s: bytes, p: nat)
    requires p <= |s|
    ensures At(s, p, ExpText(TakenExp(s, p))) && p + |ExpText(TakenExp(s, p))| == ExpRun(s, p).to
    ensures var x := TakenExp(s, p); var e := ExpRun(s, p);
      (x.Exp? ==> AllDigits(x.digits)) && ExpValue(x) == Signed(ExpNegative(s, p), DigitsValue(s[e.from..e.to]))
  {
    var e := ExpRun(s, p);
    NoDigits(s, p);
    hide At, DigitsValue;
    if TakenExp(s, p).Exp? {
      AtOne(s, p);
      AtSlice(s, e.from, e.to);
      if Peek(s, p + 1) == PLUS || Peek(s, p + 1) == MINUS {
        AtOne(s, p + 1);
        AtJoin(s, p, [s[p]], [s[p + 1]]);
        AtJoin(s, p, [s[p]] + [s[p + 1]], s[e.from..e.to]);
      } else {
        assert [s[p]] + [] == [s[p]];
        AtJoin(s, p, [s[p]], s[e.from..e.to]);
      }
    } else {
      AtNone(s, p);
    }
  }

  lemma {:induction false} TakenFracStands(s: bytes, p: nat)
    requires p <= |s|
    ensures var f := FracRun(s, p); var t := FracText(s[f.from..f.to]);
      At(s, p, t) && p + |t| == f.to && AllDigits(s[f.from..f.to])
  {
    var f := FracRun(s, p);
    hide At;
    if Peek(s, p) == DOT && IsDigit(Peek(s, p + 1)) {
      assert f.to > p + 1;
      AtOne(s, p);
      AtSlice(s, p + 1, f.to);
      AtJoin(s, p, [s[p]], s[p + 1..f.to]);
    } else {
      assert s[p..p] == [];
      AtNone(s, p);
    }
  }

  lemma {:induction false} TakenIntStands(s: bytes, p: nat)
    requires p <= |s|
    ensures var n, i := Taken(s, p), IntRun(s, p);
      && At(s, p, SignText(n.negative) + (ZeroText(n.zero) + n.digits))
      && p + |SignText(n.negative) + (ZeroText(n.zero) + n.digits)| == i.to
      && AllDigits(n.digits) && (n.digits != [] ==> n.digits[0] != ZERO)
  {
    var n, i := Taken(s, p), IntRun(s, p);
    var i0 := if n.negative then p + 1 else p;
    var i1 := if n.zero then i0 + 1 else i0;
    hide At;
    AtSlice(s, i1, i.to);
    AtSlice(s, i0, i1);
    AtSlice(s, p, i0);
    assert s[p..i0] == SignText(n.negative);
    assert s[i0..i1] == ZeroText(n.zero);
    AtJoin(s, i0, ZeroText(n.zero), n.digits);
    AtJoin(s, p, SignText(n.negative), ZeroText(n.zero) + n.digits);
  }

  lemma {:induction false} TakenIsNumber(s: bytes, p: nat)
    requires p <= |s| && (Peek(s, p) == MINUS || IsDigit(Peek(s, p)))
    ensures IsNumber(Taken(s, p))
  {
    var n, i := Taken(s, p), IntRun(s, p);
    var f := FracRun(s, i.to);
    TakenIntStands(s, p);
    TakenFracStands(s, i.to);
    TakenExpStands(s, f.to);
    FirstTaken(s, p);
    assert n.frac == s[f.from..f.to] && n.exp == TakenExp(s, f.to);
    TakenMarker(s, f.to);
    hide At, DigitsValue, ExpValue, AllDigits, RunEnd, IntRun, FracRun, ExpRun, TakenExp, Taken;
  }

  lemma {:induction false} FirstTaken(s: bytes, p: nat)
    requires p <= |s| && (Peek(s, p) == MINUS || IsDigit(Peek(s, p)))
    ensures var n := Taken(s, p); n.negative || n.zero || n.digits != []
  {
    hide AllDigits, TakenExp, FracRun, ExpRun;
  }

  lemma {:induction false} TakenMarker(s: bytes, p: nat)
    requires p <= |s|
    ensures var x := TakenExp(s, p); x.Exp? ==>
      && (x.marker == LOWER_E || x.marker == UPPER_E) && (x.sign == [] || x.sign == [PLUS] || x.sign == [MINUS])
  {}

  lemma {:induction false} TakenReading(s: bytes, p: nat)
    requires p <= |s| && IsNumber(Taken(s, p))
    ensures var n, f := Taken(s, p), FracRun(s, IntRun(s, p).to);
      ReadNumber(s, p) == Reading(LooseDecimal(n), ExpRun(s, f.to).to)
  {
    var n, i := Taken(s, p), IntRun(s, p);
    var f := FracRun(s, i.to);
    TakenExpStands(s, f.to);
    hide At, DigitsValue, ExpValue, AllDigits, IntRun, FracRun, ExpRun, ExpNegative, TakenExp;
    assert |n.frac| == f.to - f.from;
  }

  /** What is taken is such a text, and it ends where the reader stops. */
  lemma {:induction false} TakenStands(s: bytes, p: nat)
    requires p <= |s| && (Peek(s, p) == MINUS || IsDigit(Peek(s, p)))
    ensures var n := Taken(s, p);
      && IsNumber(n) && At(s, p, LooseText(n))
      && ReadNumber(s, p) == Reading(LooseDecimal(n), p + |LooseText(n)|)
  {
    var n, i := Taken(s, p), IntRun(s, p);
    var f := FracRun(s, i.to);
    TakenIsNumber(s, p);
    TakenReading(s, p);
    TakenIntStands(s, p);
    TakenFracStands(s, i.to);
    TakenExpStands(s, f.to);
    assert n.frac == s[f.from..f.to] && n.exp == TakenExp(s, f.to);
    hide At, DigitsValue, ExpValue, AllDigits, IntRun, FracRun, ExpRun, TakenExp, Taken, IsNumber, ReadNumber;
    hide LooseDecimal, LooseText, FracText, ExpText, SignText, ZeroText;
    var a, b, c := SignText(n.negative) + (ZeroText(n.zero) + n.digits), FracText(n.frac), ExpText(n.exp);
    AtJoin(s, p, a, b);
    AtJoin(s, p, a + b, c);
    Grouped(n);
  }

  lemma {:induction false} Grouped(n: Loose)
    ensures LooseText(n)
      == (SignText(n.negative) + (ZeroText(n.zero) + n.digits)) + FracText(n.frac) + ExpText(n.exp)
  {
    var a, z, d, b, c := SignText(n.negative), ZeroText(n.zero), n.digits, FracText(n.frac), ExpText(n.exp);
    Assoc(z, d, b + c);
    Assoc(a, z + d, b + c);
    Assoc(a + (z + d), b, c);
  }

  // ---------- and no longer one stands there ----------

  /** A run of digits reaches no further than the reader's, and if less far, a digit follows. */
  lemma {:induction false} RunReaches(s: bytes, p: nat, t: bytes)
    requires At(s, p, t) && AllDigits(t)
    ensures p + |t| <= RunEnd(s, p) <= |s|
    ensures p + |t| < RunEnd(s, p) ==> IsDigit(Peek(s, p + |t|))
    ensures p + |t| == RunEnd(s, p) ==> s[p..RunEnd(s, p)] == t
    decreases |t|
  {
    AtIs(s, p, t);
    if t == [] {
    } else {
      RunReaches(s, p + 1, t[1..]);
    }
  }

  /** What stands at p up to k is shorter than what is taken up to q, and a number character follows, or
      both are the same. */
  predicate Reaches(s: bytes, k: nat, q: nat, same: bool) {
    k <= q && (if k < q then IsDigit(Peek(s, k)) else same)
  }

  /** The digits of the integer part, behind its sign and its zero. */
  function DigitRun(s: bytes, p: nat): (r: Run)
    requires p <= |s|
  {
    var i := if Peek(s, p) == ZERO then p + 1 else p;
    if IsDigit(Peek(s, i)) && Peek(s, i) != ZERO then RunAt(s, i) else Run(i, i)
  }

  lemma {:induction false} IntRunIs(s: bytes, p: nat)
    requires p <= |s|
    ensures Peek(s, p) == MINUS ==> p + 1 <= |s|
    ensures IntRun(s, p) == DigitRun(s, if Peek(s, p) == MINUS then p + 1 else p)
  {}

  lemma {:induction false} DigitsReach(zero: bool, digits: bytes, s: bytes, p: nat, k: nat)
    requires AllDigits(digits) && (digits != [] ==> digits[0] != ZERO)
    requires At(s, p, ZeroText(zero) + digits) && k == p + |ZeroText(zero) + digits|
    ensures p <= |s|
    ensures var i := DigitRun(s, p); i.from <= i.to <= |s| && Reaches(s, k, i.to, digits == s[i.from..i.to])
  {
    var q := p + |ZeroText(zero)|;
    AtSplit(s, p, ZeroText(zero), digits);
    if zero {
      AtFirst(s, p, [ZERO]);
    }
    if digits != [] {
      AtFirst(s, q, digits);
    }
    AtIs(s, p, ZeroText(zero) + digits);
    RunReaches(s, q, digits);
    hide At, AllDigits;
    assert q <= |s|;
    assert s[q..q] == [];
  }

  lemma {:induction false} IntReaches(n: Loose, s: bytes, p: nat, k: nat)
    requires IsNumber(n) && At(s, p, SignText(n.negative) + (ZeroText(n.zero) + n.digits))
    requires k == p + |SignText(n.negative) + (ZeroText(n.zero) + n.digits)|
    requires n.negative || Peek(s, p) != MINUS
    ensures p <= |s| && n.negative == (Peek(s, p) == MINUS)
    ensures var i := IntRun(s, p); Reaches(s, k, i.to, n.digits == s[i.from..i.to])
  {
    var a := SignText(n.negative);
    AtSplit(s, p, a, ZeroText(n.zero) + n.digits);
    if n.negative {
      AtFirst(s, p, a);
    }
    AtIs(s, p, a);
    hide At, AllDigits, IntRun, DigitRun;
    IntRunIs(s, p);
    DigitsReach(n.zero, n.digits, s, p + |a|, k);
  }

  /** Behind the integer part, or what the reader takes for a fraction begins where there is none. */
  lemma {:induction false} FracReaches(frac: bytes, s: bytes, p: nat, k: nat)
    requires AllDigits(frac) && At(s, p, FracText(frac)) && k == p + |FracText(frac)|
    ensures p <= |s|
    ensures var f := FracRun(s, p);
      k <= f.to && (if k < f.to then IsDigit(Peek(s, k)) || Peek(s, k) == DOT else frac == s[f.from..f.to])
  {
    AtIs(s, p, FracText(frac));
    if frac != [] {
      AtSplit(s, p, [DOT], frac);
      AtFirst(s, p, [DOT]);
      AtFirst(s, p + 1, frac);
      RunReaches(s, p + 1, frac);
    }
  }

  lemma {:induction false} ExpReaches(x: ExpPart, s: bytes, p: nat, k: nat)
    requires x.Exp? ==> (x.marker == LOWER_E || x.marker == UPPER_E) && AllDigits(x.digits)
    requires x.Exp? ==> x.sign == [] || x.sign == [PLUS] || x.sign == [MINUS]
    requires At(s, p, ExpText(x)) && k == p + |ExpText(x)|
    ensures p <= |s| && k <= ExpRun(s, p).to
    ensures var e := ExpRun(s, p);
      k == e.to ==> ExpValue(x) == Signed(ExpNegative(s, p), DigitsValue(s[e.from..e.to]))
  {
    AtIs(s, p, ExpText(x));
    NoDigits(s, p);
    hide DigitsValue;
    if x.Exp? {
      AtSplit(s, p, [x.marker] + x.sign, x.digits);
      AtSplit(s, p, [x.marker], x.sign);
      AtFirst(s, p, [x.marker]);
      if x.sign != [] {
        AtFirst(s, p + 1, x.sign);
        RunReaches(s, p + 2, x.digits);
      } else {
        UnsignedReaches(x.digits, s, p);
      }
    }
  }

  lemma {:induction false} UnsignedReaches(digits: bytes, s: bytes, p: nat)
    requires AllDigits(digits) && At(s, p + 1, digits)
    requires Peek(s, p) == LOWER_E || Peek(s, p) == UPPER_E
    ensures p <= |s| && p + 1 + |digits| <= ExpRun(s, p).to
    ensures p + 1 + |digits| == ExpRun(s, p).to ==>
      var e := ExpRun(s, p); s[e.from..e.to] == digits && !ExpNegative(s, p)
  {
    AtIs(s, p + 1, digits);
    if digits != [] {
      AtFirst(s, p + 1, digits);
    }
    RunReaches(s, p + 1, digits);
  }

  /** The text of the integer part, of the fraction and of the exponent, each where it stands. */
  lemma {:induction false} LoosePartsStand(n: Loose, s: bytes, p: nat, k: nat, j: nat)
    requires IsNumber(n) && At(s, p, LooseText(n))
    requires k == p + |SignText(n.negative) + (ZeroText(n.zero) + n.digits)| && j == k + |FracText(n.frac)|
    ensures At(s, p, SignText(n.negative) + (ZeroText(n.zero) + n.digits))
    ensures At(s, k, FracText(n.frac)) && At(s, j, ExpText(n.exp)) && p + |LooseText(n)| == j + |ExpText(n.exp)|
    ensures n.negative || Peek(s, p) != MINUS
    ensures n.frac != [] ==> Peek(s, k) == DOT
    ensures n.exp.Exp? ==> Peek(s, j) == LOWER_E || Peek(s, j) == UPPER_E
  {
    var a, b, c := SignText(n.negative) + (ZeroText(n.zero) + n.digits), FracText(n.frac), ExpText(n.exp);
    Grouped(n);
    AtSplit(s, p, a + b, c);
    AtSplit(s, p, a, b);
    hide At;
    if !n.negative {
      LooseFirst(n);
      AtFirst(s, p, LooseText(n));
    }
    if n.frac != [] {
      AtFirst(s, k, b);
    }
    if n.exp.Exp? {
      AtFirst(s, j, c);
    }
  }

  lemma {:induction false} LooseFirst(n: Loose)
    requires IsNumber(n) && !n.negative
    ensures LooseText(n) != [] && IsDigit(LooseText(n)[0])
  {}

  /** Any such text that stands at p is no longer than what the reader takes, and if it is as long, it has
      the same digits, sign and exponent. */
  lemma {:induction false} LooseLongest(n: Loose, s: bytes, p: nat)
    requires IsNumber(n) && At(s, p, LooseText(n))
    ensures p <= |s| && p + |LooseText(n)| <= ReadNumber(s, p).next
    ensures p + |LooseText(n)| == ReadNumber(s, p).next ==> ReadNumber(s, p).value == LooseDecimal(n)
  {
    var k := p + |SignText(n.negative) + (ZeroText(n.zero) + n.digits)|;
    var j := k + |FracText(n.frac)|;
    LoosePartsStand(n, s, p, k, j);
    IntReaches(n, s, p, k);
    FracReaches(n.frac, s, k, j);
    ExpReaches(n.exp, s, j, j + |ExpText(n.exp)|);
    hide At, AllDigits, IntRun, FracRun, ExpRun, ExpNegative, ExpValue, DigitsValue, LooseText, Peek, SignText;
    hide ZeroText;
    LongestParts(n, s, p, k, j, j + |ExpText(n.exp)|);
  }

  lemma {:induction false} LongestParts(n: Loose, s: bytes, p: nat, k: nat, j: nat, e: nat)
    requires IsNumber(n) && p <= |s| && k <= |s| && j <= |s| && j == k + |FracText(n.frac)| && e == j + |ExpText(n.exp)|
    requires n.negative == (Peek(s, p) == MINUS)
    requires n.frac != [] ==> Peek(s, k) == DOT
    requires n.exp.Exp? ==> Peek(s, j) == LOWER_E || Peek(s, j) == UPPER_E
    requires var i := IntRun(s, p); Reaches(s, k, i.to, n.digits == s[i.from..i.to])
    requires var f := FracRun(s, k);
      j <= f.to && (if j < f.to then IsDigit(Peek(s, j)) || Peek(s, j) == DOT else n.frac == s[f.from..f.to])
    requires e <= ExpRun(s, j).to
    requires var x := ExpRun(s, j);
      e == x.to ==> ExpValue(n.exp) == Signed(ExpNegative(s, j), DigitsValue(s[x.from..x.to]))
    ensures e <= ReadNumber(s, p).next
    ensures e == ReadNumber(s, p).next ==> ReadNumber(s, p).value == LooseDecimal(n)
  {
    hide AllDigits, IntRun, FracRun, ExpRun, ExpNegative, ExpValue, DigitsValue, Peek, ReadNumber, LooseDecimal;
    EndsInOrder(s, p);
    if k < IntRun(s, p).to {
      NoTail(n, s, k);
    } else if j < FracRun(s, k).to {
      NoExponent(n, s, j);
    } else if e == ExpRun(s, j).to {
      PartsAgree(n, s, p, k, j);
    }
  }

  lemma {:induction false} EndsInOrder(s: bytes, p: nat)
    requires p <= |s|
    ensures var i := IntRun(s, p); var f := FracRun(s, i.to); var x := ExpRun(s, f.to);
      i.to <= f.to <= x.to == ReadNumber(s, p).next
  {}

  /** A digit follows neither with a fraction nor with an exponent. */
  lemma {:induction false} NoTail(n: Loose, s: bytes, k: nat)
    requires IsDigit(Peek(s, k)) && (n.frac != [] ==> Peek(s, k) == DOT)
    requires n.exp.Exp? ==> n.frac != [] || Peek(s, k) == LOWER_E || Peek(s, k) == UPPER_E
    ensures n.frac == [] && n.exp.NoExp?
  {}

  lemma {:induction false} NoExponent(n: Loose, s: bytes, j: nat)
    requires IsDigit(Peek(s, j)) || Peek(s, j) == DOT
    requires n.exp.Exp? ==> Peek(s, j) == LOWER_E || Peek(s, j) == UPPER_E
    ensures n.exp.NoExp?
  {}

  lemma {:induction false} PartsAgree(n: Loose, s: bytes, p: nat, k: nat, j: nat)
    requires IsNumber(n) && p <= |s| && k <= |s| && j <= |s|
    requires n.negative == (Peek(s, p) == MINUS)
    requires var i := IntRun(s, p); k == i.to && n.digits == s[i.from..i.to]
    requires var f := FracRun(s, k); j == f.to && n.frac == s[f.from..f.to]
    requires var x := ExpRun(s, j); ExpValue(n.exp) == Signed(ExpNegative(s, j), DigitsValue(s[x.from..x.to]))
    ensures ReadNumber(s, p).value == LooseDecimal(n)
  {
    hide AllDigits, IntRun, FracRun, ExpRun, ExpNegative, ExpValue, DigitsValue, Peek;
    var f := FracRun(s, k);
    assert |s[f.from..f.to]| == f.to - f.from;
  }
}
