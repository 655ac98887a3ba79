/** Number texts: what parse_number takes from one, and the number grammar of section 2.4 of RFC 4627
    with the value it denotes. */
module JsonNumber {
  import opened Bytes
  import opened CText
  import opened Reals
  import opened Seqs

  // ---------- what the parser reads ----------

  /** The end of the digit run at p. */
  function RunEnd(s: bytes, p: nat): (q: nat)
    ensures p <= q && (p <= |s| ==> q <= |s|) && !IsDigit(Peek(s, q))
    decreases |s| - p
  {
    if IsDigit(Peek(s, p)) then RunEnd(s, p + 1) else p
  }

  lemma {:induction false} RunIsDigits(s: bytes, p: nat)
    requires p <= |s|
    ensures AllDigits(s[p..RunEnd(s, p)])
    decreases |s| - p
  {
    if !IsDigit(Peek(s, p)) {
    } else {
      RunIsDigits(s, p + 1);
      assert s[p..RunEnd(s, p)] == [s[p]] + s[p + 1..RunEnd(s, p + 1)];
    }
  }

  lemma {:induction false} NoneTaken(s: bytes, p: nat)
    requires p <= |s|
    ensures AllDigits(s[p..p]) && DigitsValue(s[p..p]) == 0
  {}

  lemma {:induction false} OneMore(s: bytes, p: nat, q: nat)
    requires p <= q < |s| && IsDigit(s[q]) && AllDigits(s[p..q])
    ensures AllDigits(s[p..q + 1]) && DigitsValue(s[p..q + 1]) == 10 * DigitsValue(s[p..q]) + (s[q] - ZERO)
  {
    hide AllDigits, DigitsValue;
    SliceNext(s, p, q);
    DigitsAppend(s[p..q], s[q]);
  }

  /** A digit run, from the position of its first digit to just after its last. */
  datatype Run = Run(from: nat, to: nat)

  predicate IsRun(s: bytes, r: Run) {
    r.from <= r.to <= |s| && AllDigits(s[r.from..r.to])
  }

  function RunAt(s: bytes, p: nat): (r: Run)
    requires p <= |s|
    ensures IsRun(s, r) && r.from == p
  {
    RunIsDigits(s, p);
    Run(p, RunEnd(s, p))
  }

  /** After an optional sign and an optional zero: the digits that do not start with zero. */
  function IntRun(s: bytes, p: nat): (r: Run)
    requires p <= |s|
    ensures IsRun(s, r) && p <= r.from
    ensures Peek(s, p) == MINUS || IsDigit(Peek(s, p)) ==> p < r.to
  {
    var i0 := if Peek(s, p) == MINUS then p + 1 else p;
    var i1 := if Peek(s, i0) == ZERO then i0 + 1 else i0;
    if IsDigit(Peek(s, i1)) && Peek(s, i1) != ZERO then RunAt(s, i1) else Run(i1, i1)
  }

  /** The digits after a decimal point, which is skipped only when a digit follows it. */
  function FracRun(s: bytes, p: nat): (r: Run)
    requires p <= |s|
    ensures IsRun(s, r) && p <= r.from
  {
    if Peek(s, p) == DOT && IsDigit(Peek(s, p + 1)) then RunAt(s, p + 1) else Run(p, p)
  }

  /** The digits, perhaps none, after an exponent marker and its optional sign. */
  function ExpRun(s: bytes, p: nat): (r: Run)
    requires p <= |s|
    ensures IsRun(s, r) && p <= r.from
  {
    if Peek(s, p) == LOWER_E || Peek(s, p) == UPPER_E then
      if Peek(s, p + 1) == PLUS || Peek(s, p + 1) == MINUS then RunAt(s, p + 2) else RunAt(s, p + 1)
    else
      Run(p, p)
  }

  predicate ExpNegative(s: bytes, p: nat) {
    (Peek(s, p) == LOWER_E || Peek(s, p) == UPPER_E) && Peek(s, p + 1) == MINUS
  }

  lemma {:induction false} AllDigitsConcat(a: bytes, b: bytes)
    requires AllDigits(a) && AllDigits(b)
    ensures AllDigits(a + b)
  {}

  function Signed(negative: bool, n: int): int {
    if negative then -n else n
  }

  /** A decimal number: the digits, with a sign, times ten to the exponent. */
  datatype Decimal = Decimal(negative: bool, digits: bytes, exponent: int)

  datatype Reading = Reading(value: Decimal, next: nat)

  /** What the parser takes from p, and where it stops. */
  function ReadNumber(s: bytes, p: nat): (r: Reading)
    requires p <= |s|
    ensures p <= r.next <= |s| && AllDigits(r.value.digits)
    ensures Peek(s, p) == MINUS || IsDigit(Peek(s, p)) ==> p < r.next
  {
    var i := IntRun(s, p);
    var f := FracRun(s, i.to);
    var e := ExpRun(s, f.to);
    AllDigitsConcat(s[i.from..i.to], s[f.from..f.to]);
    Reading(
      Decimal(
        Peek(s, p) == MINUS,
        s[i.from..i.to] + s[f.from..f.to],
        Signed(ExpNegative(s, f.to), DigitsValue(s[e.from..e.to])) - (f.to - f.from)),
      e.to)
  }

  // ---------- the grammar ----------

  datatype ExpPart = NoExp | Exp(marker: byte, sign: bytes, digits: bytes)

  datatype NumberText = NumberText(negative: bool, int_: bytes, frac: bytes, exp: ExpPart)

  /** Section 2.4 of RFC 4627: no leading zeros, and no empty digit run where one is required. */
  predicate Grammatical(n: NumberText) {
    && n.int_ != [] && AllDigits(n.int_) && (n.int_[0] == ZERO ==> |n.int_| == 1)
    && AllDigits(n.frac)
    && (n.exp.Exp? ==>
          && (n.exp.marker == LOWER_E || n.exp.marker == UPPER_E)
          && (n.exp.sign == [] || n.exp.sign == [PLUS] || n.exp.sign == [MINUS])
          && n.exp.digits != [] && AllDigits(n.exp.digits))
  }

  function ExpText(e: ExpPart): bytes {
    match e
    case NoExp => []
    case Exp(marker, sign, digits) => [marker] + sign + digits
  }

  function FracText(frac: bytes): bytes {
    if frac == [] then [] else [DOT] + frac
  }

  function IntText(n: NumberText): bytes {
    (if n.negative then [MINUS] else []) + n.int_
  }

  function Text(n: NumberText): bytes {
    IntText(n) + FracText(n.frac) + ExpText(n.exp)
  }

  /** The characters of a number. */
  predicate NumberChar(c: byte) {
    IsDigit(c) || c in {MINUS, PLUS, DOT, LOWER_E, UPPER_E}
  }

  lemma {:induction false} TextChars(n: NumberText)
    requires Grammatical(n)
    ensures forall i :: 0 <= i < |Text(n)| ==> NumberChar(Text(n)[i])
    ensures Text(n) != [] && (IsDigit(Text(n)[0]) || Text(n)[0] == MINUS)
  {
    assert forall i :: 0 <= i < |IntText(n)| ==> NumberChar(IntText(n)[i]);
    assert forall i :: 0 <= i < |FracText(n.frac)| ==> NumberChar(FracText(n.frac)[i]);
    assert forall i :: 0 <= i < |ExpText(n.exp)| ==> NumberChar(ExpText(n.exp)[i]);
  }

  /** The number the digits and a power of ten denote. */
  function Value(d: Decimal): real
    requires AllDigits(d.digits)
  {
    Times(Signed(d.negative, DigitsValue(d.digits)) as real, Power(10, d.exponent))
  }

  /** The fraction the digits after a decimal point denote. */
  function FractionValue(t: bytes): real
    requires AllDigits(t)
  {
    if t == [] then 0.0 else ((t[0] - ZERO) as real + FractionValue(t[1..])) / 10.0
  }

  function ExpValue(e: ExpPart): int
    requires e.Exp? ==> AllDigits(e.digits)
  {
    match e
    case NoExp => 0
    case Exp(_, sign, digits) => Signed(sign == [MINUS], DigitsValue(digits))
  }

  /** The number a text denotes: (integer part + fraction) times a power of ten. */
  function Denotes(n: NumberText): real
    requires Grammatical(n)
  {
    var magnitude := Times(DigitsValue(n.int_) as real + FractionValue(n.frac), Power(10, ExpValue(n.exp)));
    if n.negative then -magnitude else magnitude
  }

  /** The text at p does not continue a number that ends there. */
  predicate Stops(s: bytes, p: nat) {
    var c := Peek(s, p);
    !IsDigit(c) && c != LOWER_E && c != UPPER_E && !(c == DOT && IsDigit(Peek(s, p + 1)))
  }

  lemma {:induction false} RunEndIs(s: bytes, p: nat, t: bytes)
    requires At(s, p, t) && AllDigits(t) && !IsDigit(Peek(s, p + |t|))
    ensures p + |t| <= |s| && RunEnd(s, p) == p + |t| && s[p..p + |t|] == t
    decreases |t|
  {
    AtIs(s, p, t);
    if t == [] {
    } else {
      RunEndIs(s, p + 1, t[1..]);
    }
  }

  /** Appending k more digits to a digit run scales it by 10^k and adds their value. */
  lemma {:induction false} DigitsValueConcat(a: bytes, b: bytes)
    requires AllDigits(a) && AllDigits(b) && AllDigits(a + b)
    ensures DigitsValue(a + b) as real == Times(DigitsValue(a) as real, Power(10, |b|)) + DigitsValue(b) as real
    decreases |b|
  {
    if b == [] {
      assert a + b == a;
      assert Times(DigitsValue(a) as real, 1.0) == DigitsValue(a) as real;
    } else {
      var b' := b[..|b| - 1];
      assert (a + b)[..|a + b| - 1] == a + b';
      DigitsValueConcat(a, b');
      TimesBy(10.0, DigitsValue(a) as real, Power(10, |b'|));
    }
  }

  lemma {:induction false} TimesFraction(d: real, f: real, x: real)
    ensures Times((d + f) / 10.0, Times(10.0, x)) == Times(d, x) + Times(f, x)
  {
    var y := (d + f) / 10.0;
    assert Times(10.0, y) == d + f;
    hide Times;
    TimesBy(10.0, y, x);
    TimesSum(d, f, x);
  }

  lemma {:induction false} FractionIsScaled(t: bytes)
    requires AllDigits(t)
    ensures Times(FractionValue(t), Power(10, |t|)) == DigitsValue(t) as real
  {
    if t == [] {
    } else {
      var rest := t[1..];
      FractionIsScaled(rest);
      assert t == [t[0]] + rest;
      DigitsValueConcat([t[0]], rest);
      assert DigitsValue([t[0]]) == t[0] - ZERO by {
        assert [t[0]][..0] == [];
      }
      TimesFraction((t[0] - ZERO) as real, FractionValue(rest), Power(10, |rest|));
    }
  }

  function IntDigits(n: NumberText): bytes {
    if n.int_ == [ZERO] then [] else n.int_
  }

  /** From p to e the parser reads the sign and the integer digits. */
  predicate IntReads(n: NumberText, s: bytes, p: nat, e: nat) {
    && p <= |s| && (Peek(s, p) == MINUS <==> n.negative)
    && var r := IntRun(s, p); r.to == e && s[r.from..r.to] == IntDigits(n)
  }

  lemma {:induction false} ReadsInt(n: NumberText, s: bytes, p: nat, e: nat)
    requires Grammatical(n) && At(s, p, IntText(n)) && e == p + |IntText(n)| && !IsDigit(Peek(s, e))
    ensures IntReads(n, s, p, e)
  {
    var m := if n.negative then [MINUS] else [];
    AtSplit(s, p, m, n.int_);
    AtFirst(s, p + |m|, n.int_);
    if n.int_ != [ZERO] {
      RunEndIs(s, p + |m|, n.int_);
    }
  }

  /** From p to e the parser reads the digits after the point, if there are any. */
  predicate FracReads(frac: bytes, s: bytes, p: nat, e: nat) {
    p <= |s| && var r := FracRun(s, p); r.to == e && s[r.from..r.to] == frac
  }

  lemma {:induction false} ReadsFrac(frac: bytes, s: bytes, p: nat, e: nat)
    requires AllDigits(frac) && At(s, p, FracText(frac)) && e == p + |FracText(frac)| && !IsDigit(Peek(s, e))
    requires frac == [] ==> !(Peek(s, p) == DOT && IsDigit(Peek(s, p + 1)))
    ensures FracReads(frac, s, p, e)
  {
    if frac != [] {
      AtSplit(s, p, [DOT], frac);
      AtFirst(s, p, [DOT]);
      AtFirst(s, p + 1, frac);
      RunEndIs(s, p + 1, frac);
    }
  }

  lemma {:induction false} NoDigits(s: bytes, p: nat)
    ensures DigitsValue([]) == 0
    ensures p <= |s| ==> s[p..p] == []
  {}

  /** From p to e the parser reads the exponent, if there is one. */
  predicate ExpReads(x: ExpPart, s: bytes, p: nat, e: nat)
    requires x.Exp? ==> AllDigits(x.digits)
  {
    && p <= |s|
    && var r := ExpRun(s, p);
      r.to == e && Signed(ExpNegative(s, p), DigitsValue(s[r.from..r.to])) == ExpValue(x)
  }

  lemma {:induction false} ReadsExp(n: NumberText, s: bytes, p: nat, e: nat)
    requires Grammatical(n) && At(s, p, ExpText(n.exp)) && e == p + |ExpText(n.exp)| && Stops(s, e)
    ensures ExpReads(n.exp, s, p, e)
  {
    NoDigits(s, p);
    AtIs(s, p, ExpText(n.exp));
    hide DigitsValue, RunEnd, At;
    if n.exp.Exp? {
      var x := n.exp;
      var k := 1 + |x.sign|;
      AtSplit(s, p, [x.marker] + x.sign, x.digits);
      AtSplit(s, p, [x.marker], x.sign);
      AtFirst(s, p, [x.marker]);
      AtFirst(s, p + k, x.digits);
      RunEndIs(s, p + k, x.digits);
    }
  }

  lemma {:induction false} ScaledSum(v: real, x: real, f: real, g: real, k: real, y: real, z: real)
    requires v == Times(x, k) + g && g == Times(f, k) && Times(y, k) == z
    ensures Times(v, y) == Times(x + f, z)
  {
    var h := x + f;
    assert v == h * k;
    assert (h * k) * y == h * (k * y);
  }

  lemma {:induction false} ScaledValue(i: bytes, frac: bytes, exp: int)
    requires AllDigits(i) && AllDigits(frac) && AllDigits(i + frac)
    ensures Times(DigitsValue(i + frac) as real, Power(10, exp - |frac|))
         == Times(DigitsValue(i) as real + FractionValue(frac), Power(10, exp))
  {
    DigitsValueConcat(i, frac);
    FractionIsScaled(frac);
    PowerAdd(10, exp, |frac|);
    ScaledSum(DigitsValue(i + frac) as real, DigitsValue(i) as real, FractionValue(frac),
            DigitsValue(frac) as real, Power(10, |frac|), Power(10, exp - |frac|), Power(10, exp));
  }

  /** Where the parts of a text end: the integer part at k, the fraction at j, the exponent at e. */
  predicate PartsEnd(n: NumberText, p: nat, k: nat, j: nat, e: nat) {
    k == p + |IntText(n)| && j == k + |FracText(n.frac)| && e == j + |ExpText(n.exp)|
  }

  /** Where the parts of a grammatical text stand, and what follows each. */
  lemma {:induction false} PartsStand(n: NumberText, s: bytes, p: nat, k: nat, j: nat, e: nat)
    requires Grammatical(n) && At(s, p, Text(n)) && PartsEnd(n, p, k, j, e) && Stops(s, e)
    ensures At(s, p, IntText(n)) && At(s, k, FracText(n.frac)) && At(s, j, ExpText(n.exp))
    ensures !IsDigit(Peek(s, k)) && !IsDigit(Peek(s, j))
    ensures n.frac == [] ==> !(Peek(s, k) == DOT && IsDigit(Peek(s, k + 1)))
  {
    var a, b, c := IntText(n), FracText(n.frac), ExpText(n.exp);
    AtSplit(s, p, a + b, c);
    AtSplit(s, p, a, b);
    if b != [] {
      AtFirst(s, k, b);
    }
    if c != [] {
      AtFirst(s, j, c);
    }
  }

  /** What the parser takes from a text of the grammar. */
  function Accumulated(n: NumberText): (d: Decimal)
    requires Grammatical(n)
    ensures AllDigits(d.digits)
  {
    AllDigitsConcat(IntDigits(n), n.frac);
    Decimal(n.negative, IntDigits(n) + n.frac, ExpValue(n.exp) - |n.frac|)
  }

  /** The three readers meet three parts, which end at k, j and e. */
  predicate PartsRead(n: NumberText, s: bytes, p: nat, k: nat, j: nat, e: nat)
    requires Grammatical(n)
  {
    IntReads(n, s, p, k) && FracReads(n.frac, s, k, j) && ExpReads(n.exp, s, j, e)
  }

  lemma {:induction false} ReadsParts(n: NumberText, s: bytes, p: nat, k: nat, j: nat, e: nat)
    requires Grammatical(n) && At(s, p, Text(n)) && PartsEnd(n, p, k, j, e) && Stops(s, e)
    ensures PartsRead(n, s, p, k, j, e)
  {
    PartsStand(n, s, p, k, j, e);
    hide At, AllDigits, IntText, FracText, ExpText, Text, Peek, IsDigit, Stops, IntReads, FracReads, ExpReads;
    ReadsInt(n, s, p, k);
    ReadsFrac(n.frac, s, k, j);
    ReadsExp(n, s, j, e);
  }

  lemma {:induction false} PartsMake(n: NumberText, s: bytes, p: nat, k: nat, j: nat, e: nat)
    requires Grammatical(n) && PartsRead(n, s, p, k, j, e)
    ensures p <= |s| && ReadNumber(s, p) == Reading(Accumulated(n), e)
  {
    hide DigitsValue, IntRun, FracRun, ExpRun, ExpNegative, ExpValue, IntDigits, Signed;
    AllDigitsConcat(IntDigits(n), n.frac);
    var f := FracRun(s, k);
    assert |s[f.from..f.to]| == f.to - f.from;
  }

  lemma {:induction false} ReadsDecimal(n: NumberText, s: bytes, p: nat)
    requires Grammatical(n) && At(s, p, Text(n)) && Stops(s, p + |Text(n)|)
    ensures p <= |s|
    ensures ReadNumber(s, p) == Reading(Accumulated(n), p + |Text(n)|)
  {
    hide PartsRead, At, Grammatical, Stops, ReadNumber;
    var k := p + |IntText(n)|;
    var j := k + |FracText(n.frac)|;
    ReadsParts(n, s, p, k, j, p + |Text(n)|);
    PartsMake(n, s, p, k, j, p + |Text(n)|);
  }

  lemma {:induction false} SignedTimes(negative: bool, m: int, x: real, y: real)
    requires Times(m as real, x) == y
    ensures Times(Signed(negative, m) as real, x) == if negative then -y else y
  {}

  lemma {:induction false} AccumulatedDenotes(n: NumberText)
    requires Grammatical(n)
    ensures Value(Accumulated(n)) == Denotes(n)
  {
    var i, exp := IntDigits(n), ExpValue(n.exp);
    IntDigitsValue(n);
    hide Grammatical, DigitsValue, IntDigits;
    AllDigitsConcat(i, n.frac);
    ScaledValue(i, n.frac, exp);
    SignedTimes(n.negative, DigitsValue(i + n.frac), Power(10, exp - |n.frac|),
                Times(DigitsValue(n.int_) as real + FractionValue(n.frac), Power(10, exp)));
  }

  /** Every text of the grammar is consumed whole, and the accumulated mantissa and exponent are
      exactly the number it denotes. */
  lemma {:induction false} ReadsGrammar(n: NumberText, s: bytes, p: nat)
    requires Grammatical(n) && At(s, p, Text(n)) && Stops(s, p + |Text(n)|)
    ensures p <= |s|
    ensures ReadNumber(s, p).next == p + |Text(n)| && Value(ReadNumber(s, p).value) == Denotes(n)
  {
    AccumulatedDenotes(n);
    ReadsDecimal(n, s, p);
  }

  // ---------- printed integers ----------

  function IntegerText(m: int): NumberText {
    NumberText(m < 0, Digits(if m < 0 then -m else m), [], NoExp)
  }

  lemma {:induction false} NothingBehind(a: bytes)
    ensures a + [] + [] == a && a + [] == a && [] + a == a
  {}

  lemma {:induction false} IntegerGrammatical(m: int)
    ensures Grammatical(IntegerText(m))
  {
    var k := if m < 0 then -m else m;
    CanonicalDigits(k);
    DigitsRoundTrip(k);
  }

  lemma {:induction false} IntegerIsDecimal(m: int)
    ensures Text(IntegerText(m)) == DecimalText(m)
  {
    hide Digits;
    var k := if m < 0 then -m else m;
    NothingBehind([MINUS] + Digits(k));
    NothingBehind(Digits(k));
  }

  /** A printed integer leaves its digits, none for zero, and no exponent. */
  lemma {:induction false} IntegerTextIs(m: int)
    ensures Grammatical(IntegerText(m)) && Text(IntegerText(m)) == DecimalText(m)
    ensures var d := Accumulated(IntegerText(m));
      d.negative == (m < 0) && d.exponent == 0 && DigitsValue(d.digits) == (if m < 0 then -m else m)
  {
    hide Text, DecimalText, Digits, DigitsValue, AllDigits, IntDigits, Grammatical;
    var n := IntegerText(m);
    IntegerGrammatical(m);
    IntegerIsDecimal(m);
    DigitsRoundTrip(if m < 0 then -m else m);
    IntDigitsValue(n);
    NothingBehind(IntDigits(n));
  }

  /** A single zero counts as no digits at all, which makes no difference. */
  lemma {:induction false} IntDigitsValue(n: NumberText)
    requires AllDigits(n.int_)
    ensures AllDigits(IntDigits(n)) && DigitsValue(IntDigits(n)) == DigitsValue(n.int_)
  {
    assert [ZERO][..0] == [];
  }

  lemma {:induction false} CanonicalDigits(n: nat)
    ensures Digits(n)[0] == ZERO ==> |Digits(n)| == 1
  {}
}
