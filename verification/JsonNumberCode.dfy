/** parse_number as the loops that accumulate the double digit by digit. */
module JsonNumberCode {
  import opened Bytes
  import opened CText
  import opened Seqs
  import opened Reals
  import opened Doubles
  import opened JsonNumber
  import opened JsonDouble

  lemma {:induction false} NextDigit(before: bytes, s: bytes, from: nat, num: nat)
    requires from <= num < |s| && IsDigit(s[num]) && AllDigits(before + s[from..num])
    ensures AllDigits(before + s[from..num + 1])
    ensures DigitsDouble(before + s[from..num + 1])
      == NextDouble(DigitsDouble(before + s[from..num]), s[num] - ZERO)
  {
    hide AllDigits, DigitsDouble, NextDouble;
    SliceNext(s, from, num);
    Assoc(before, s[from..num], [s[num]]);
    DoubleAppend(before + s[from..num], s[num]);
  }

  /** One of the two digit loops of the mantissa: n goes on from the digits taken before. */
  method TakeDigits(s: bytes, p: nat, n0: real, ghost before: bytes) returns (n: real, num: nat)
    requires CString(s) && p < |s| && AllDigits(before) && n0 == DigitsDouble(before)
    ensures num == RunEnd(s, p) < |s|
    ensures AllDigits(before + s[p..num]) && n == DigitsDouble(before + s[p..num])
    ensures forall o: object {:trigger allocated(o)} {:trigger old(allocated(o))} :: allocated(o) ==> old(allocated(o))
  {
    hide AllDigits, DigitsDouble, Rounded, Times;
    n, num := n0, p;
    assert before + s[p..p] == before;
    while ZERO <= s[num] <= NINE
      invariant p <= num < |s| && RunEnd(s, num) == RunEnd(s, p)
      invariant AllDigits(before + s[p..num]) && n == DigitsDouble(before + s[p..num])
      invariant forall o: object {:trigger allocated(o)} {:trigger old(allocated(o))} ::
        allocated(o) ==> old(allocated(o))
      decreases |s| - num
    {
      NextDigit(before, s, p, num);
      n := Rounded(Rounded(Times(10.0, n)) + (s[num] - ZERO) as real);
      num := num + 1;
    }
  }

  /** The digit loop of the exponent, which is an int. */
  method TakeExponent(s: bytes, p: nat) returns (subscale: int, num: nat)
    requires CString(s) && p < |s|
    ensures num == RunEnd(s, p) < |s|
    ensures AllDigits(s[p..num]) && subscale == DigitsValue(s[p..num])
    ensures forall o: object {:trigger allocated(o)} {:trigger old(allocated(o))} :: allocated(o) ==> old(allocated(o))
  {
    hide DigitsValue, AllDigits;
    subscale, num := 0, p;
    NoneTaken(s, p);
    while ZERO <= s[num] <= NINE
      invariant p <= num < |s| && RunEnd(s, num) == RunEnd(s, p)
      invariant AllDigits(s[p..num]) && subscale == DigitsValue(s[p..num])
      invariant forall o: object {:trigger allocated(o)} {:trigger old(allocated(o))} ::
        allocated(o) ==> old(allocated(o))
      decreases |s| - num
    {
      OneMore(s, p, num);
      subscale := subscale * 10 + (s[num] - ZERO);
      num := num + 1;
    }
  }

  lemma {:induction false} NoDouble()
    ensures DigitsDouble([]) == 0.0
  {}

  /** Sign, zero and integer digits. */
  method ReadInt(s: bytes, p: nat) returns (n: real, sign: real, num: nat)
    requires CString(s) && p < |s|
    ensures var i := IntRun(s, p); num == i.to < |s| && n == DigitsDouble(s[i.from..i.to])
    ensures sign == if Peek(s, p) == MINUS then -1.0 else 1.0
    ensures forall o: object {:trigger allocated(o)} {:trigger old(allocated(o))} :: allocated(o) ==> old(allocated(o))
  {
    NoDouble();
    NoDigits(s, p);
    hide DigitsDouble, RunEnd;
    n, sign, num := 0.0, 1.0, p;
    if s[num] == MINUS {
      sign := -1.0;
      num := num + 1;
    }
    if s[num] == ZERO {
      num := num + 1;
    }
    ghost var from := num;
    if 0x31 <= s[num] <= NINE {
      n, num := TakeDigits(s, num, n, []);
    }
    NothingBefore(s[from..num]);
  }

  /** The digits after the point go on from those before it; each one lowers the scale. */
  method ReadFrac(s: bytes, p: nat, n0: real, ghost before: bytes) returns (n: real, scale: int, num: nat)
    requires CString(s) && p < |s| && AllDigits(before) && n0 == DigitsDouble(before)
    ensures var f := FracRun(s, p); num == f.to < |s| && scale == -(f.to - f.from)
    ensures var f := FracRun(s, p); AllDigits(before + s[f.from..f.to]) && n == DigitsDouble(before + s[f.from..f.to])
    ensures forall o: object {:trigger allocated(o)} {:trigger old(allocated(o))} :: allocated(o) ==> old(allocated(o))
  {
    n, scale, num := n0, 0, p;
    if s[num] == DOT && ZERO <= s[num + 1] <= NINE {
      var start := num + 1;
      n, num := TakeDigits(s, start, n, before);
      scale := -(num - start);
    } else {
      assert before + s[p..p] == before;
    }
  }

  method ReadExp(s: bytes, p: nat) returns (subscale: int, signsubscale: int, num: nat)
    requires CString(s) && p < |s|
    ensures var e := ExpRun(s, p); num == e.to < |s| && subscale == DigitsValue(s[e.from..e.to])
    ensures signsubscale == if ExpNegative(s, p) then -1 else 1
    ensures forall o: object {:trigger allocated(o)} {:trigger old(allocated(o))} :: allocated(o) ==> old(allocated(o))
  {
    NoDigits(s, p);
    hide DigitsValue, RunEnd;
    subscale, signsubscale, num := 0, 1, p;
    ghost var from := num;
    if s[num] == LOWER_E || s[num] == UPPER_E {
      num := num + 1;
      if s[num] == PLUS {
        num := num + 1;
      } else if s[num] == MINUS {
        signsubscale := -1;
        num := num + 1;
      }
      from := num;
      subscale, num := TakeExponent(s, num);
    }
  }

  lemma {:induction false} Signs(n: int)
    ensures -1 * n == Signed(true, n) && 1 * n == Signed(false, n)
  {}

  lemma {:induction false} RealSigns(n: real)
    ensures Times(-1.0, n) == WithSign(true, n) && Times(1.0, n) == WithSign(false, n)
  {}

  /** The double, and the position after the number. */
  method ReadDouble(s: bytes, p: nat) returns (n: real, next: nat)
    requires CString(s) && p < |s|
    ensures n == DoubleAt(s, p) && next == ReadNumber(s, p).next < |s|
    ensures forall o: object {:trigger allocated(o)} {:trigger old(allocated(o))} :: allocated(o) ==> old(allocated(o))
  {
    hide Rounded, Times, Power, DigitsDouble, WithSign;
    var sign, scale, subscale, signsubscale;
    n, sign, next := ReadInt(s, p);
    ghost var i := IntRun(s, p);
    n, scale, next := ReadFrac(s, next, n, s[i.from..i.to]);
    subscale, signsubscale, next := ReadExp(s, next);
    RealSigns(n);
    Signs(subscale);
    n := Rounded(Times(Times(sign, n), Rounded(Power(10, scale + subscale * signsubscale))));
  }
}
