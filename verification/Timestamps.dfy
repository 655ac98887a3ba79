/** Which timestamps ee_parseRFC5424Date takes, as texts: the grammar that it recognises. */
module Timestamps {
  import opened Bytes
  import opened CText
  import opened JsonNumber
  import opened Fields
  import opened PrimitiveTypes

  /** Digits worth something from lo to hi. */
  predicate Ranged(t: bytes, lo: nat, hi: nat) {
    AllDigits(t) && lo <= DigitsValue(t) <= hi
  }

  datatype Stamp = Stamp(
    year: bytes, month: bytes, day: bytes, hour: bytes, minute: bytes, second: bytes, fraction: Option<bytes>)

  /** The number of digits does not matter; a part without digits counts as zero. */
  predicate IsStamp(st: Stamp) {
    && AllDigits(st.year) && Ranged(st.month, 1, 12) && Ranged(st.day, 1, 31)
    && Ranged(st.hour, 0, 23) && Ranged(st.minute, 0, 59) && Ranged(st.second, 0, 60)
    && (st.fraction.Some? ==> AllDigits(st.fraction.value))
  }

  function After(sep: byte, digits: bytes, rest: bytes): bytes {
    [sep] + (digits + rest)
  }

  function FractionText(fraction: Option<bytes>): bytes {
    if fraction.None? then [] else [DOT] + fraction.value
  }

  function StampText(st: Stamp): bytes {
    st.year + After(MINUS, st.month, After(MINUS, st.day, After(UPPER_T, st.hour,
      After(COLON, st.minute, After(COLON, st.second, FractionText(st.fraction))))))
  }

  /** From p to q stands a stamp that does not go on. */
  predicate StampAt(st: Stamp, s: bytes, p: nat, q: nat) {
    && IsStamp(st) && At(s, p, StampText(st)) && q == p + |StampText(st)|
    && !IsDigit(Peek(s, q)) && (st.fraction.None? ==> Peek(s, q) != DOT)
  }

  lemma {:induction false} RunIs(d: bytes, s: bytes, p: nat)
    requires AllDigits(d) && At(s, p, d) && !IsDigit(Peek(s, p + |d|))
    ensures p + |d| <= |s| && RunEnd(s, p) == p + |d| && s[p..p + |d|] == d
    decreases |d|
  {
    AtIs(s, p, d);
    if d == [] {
    } else {
      RunIs(d[1..], s, p + 1);
    }
  }

  lemma {:induction false} PartTaken(s: bytes, p: nat, sep: byte, d: bytes, rest: bytes, lo: nat, hi: nat)
    requires At(s, p, After(sep, d, rest)) && Ranged(d, lo, hi)
    requires if rest == [] then !IsDigit(Peek(s, p + 1 + |d|)) else !IsDigit(rest[0])
    ensures Part(s, p, sep, lo, hi) == Some(p + 1 + |d|) && At(s, p + 1 + |d|, rest)
  {
    hide At, RunEnd, DigitsValue, AllDigits;
    AtSplit(s, p, [sep], d + rest);
    AtFirst(s, p, [sep]);
    AtSplit(s, p + 1, d, rest);
    if rest != [] {
      AtFirst(s, p + 1 + |d|, rest);
    }
    RunIs(d, s, p + 1);
    AtIs(s, p, [sep]);
  }

  lemma {:induction false} PartStands(s: bytes, p: nat, sep: byte, lo: nat, hi: nat, q: nat, rest: bytes)
    requires Part(s, p, sep, lo, hi) == Some(q) && At(s, q, rest)
    ensures p + 1 <= q <= |s| && Ranged(s[p + 1..q], lo, hi) && !IsDigit(Peek(s, q))
    ensures At(s, p, After(sep, s[p + 1..q], rest)) && |After(sep, s[p + 1..q], rest)| == q - p + |rest|
  {
    hide At, DigitsValue, AllDigits;
    RunIsDigits(s, p + 1);
    AtOne(s, p);
    AtSlice(s, p + 1, q);
    AtJoin(s, p + 1, s[p + 1..q], rest);
    AtJoin(s, p, [sep], s[p + 1..q] + rest);
  }

  lemma {:induction false} FractionTaken(fraction: Option<bytes>, s: bytes, p: nat)
    requires At(s, p, FractionText(fraction)) && (fraction.Some? ==> AllDigits(fraction.value))
    requires !IsDigit(Peek(s, p + |FractionText(fraction)|)) && (fraction.None? ==> Peek(s, p) != DOT)
    ensures p <= |s| && Fraction(s, p) == p + |FractionText(fraction)|
  {
    AtIs(s, p, FractionText(fraction));
    if fraction.Some? {
      AtSplit(s, p, [DOT], fraction.value);
      AtFirst(s, p, [DOT]);
      RunIs(fraction.value, s, p + 1);
    }
  }

  lemma {:induction false} FractionStands(s: bytes, p: nat) returns (fraction: Option<bytes>)
    requires p <= |s| && !IsDigit(Peek(s, p))
    ensures fraction.Some? ==> AllDigits(fraction.value)
    ensures At(s, p, FractionText(fraction)) && Fraction(s, p) == p + |FractionText(fraction)|
    ensures !IsDigit(Peek(s, Fraction(s, p))) && (fraction.None? ==> Peek(s, p) != DOT)
  {
    hide AllDigits;
    if Peek(s, p) == DOT {
      var q := RunEnd(s, p + 1);
      fraction := Some(s[p + 1..q]);
      RunIsDigits(s, p + 1);
      AtOne(s, p);
      AtSlice(s, p + 1, q);
      AtJoin(s, p, [DOT], s[p + 1..q]);
    } else {
      fraction := None;
      AtNone(s, p);
    }
  }

  lemma {:induction false} StampTaken(st: Stamp, s: bytes, p: nat, q: nat)
    requires StampAt(st, s, p, q)
    ensures p <= |s| && DateTime(s, p) == Some(q)
  {
    hide At, RunEnd, Number, Part, Ranged, Fraction, FractionText, AllDigits;
    var t := FractionText(st.fraction);
    var t5 := After(COLON, st.second, t);
    var t4 := After(COLON, st.minute, t5);
    var t3 := After(UPPER_T, st.hour, t4);
    var t2 := After(MINUS, st.day, t3);
    var t1 := After(MINUS, st.month, t2);
    var p1 := p + |st.year|;
    var p2 := p1 + 1 + |st.month|;
    var p3 := p2 + 1 + |st.day|;
    var p4 := p3 + 1 + |st.hour|;
    var p5 := p4 + 1 + |st.minute|;
    var p6 := p5 + 1 + |st.second|;
    AtSplit(s, p, st.year, t1);
    AtFirst(s, p1, t1);
    RunIs(st.year, s, p);
    PartTaken(s, p1, MINUS, st.month, t2, 1, 12);
    PartTaken(s, p2, MINUS, st.day, t3, 1, 31);
    PartTaken(s, p3, UPPER_T, st.hour, t4, 0, 23);
    PartTaken(s, p4, COLON, st.minute, t5, 0, 59);
    FractionFirst(st.fraction);
    PartTaken(s, p5, COLON, st.second, t, 0, 60);
    NoFraction(st.fraction);
    FractionTaken(st.fraction, s, p6);
  }

  lemma {:induction false} FractionFirst(fraction: Option<bytes>)
    ensures var t := FractionText(fraction); t == [] || t[0] == DOT
  {}

  lemma {:induction false} NoFraction(fraction: Option<bytes>)
    ensures fraction.None? ==> FractionText(fraction) == []
  {}

  lemma {:induction false} StampStands(s: bytes, p: nat, q: nat) returns (st: Stamp)
    requires p <= |s| && DateTime(s, p) == Some(q)
    ensures StampAt(st, s, p, q)
  {
    hide At, Number, Part, Ranged, Fraction, FractionText, AllDigits;
    var p1 := RunEnd(s, p);
    var p2 := Part(s, p1, MINUS, 1, 12).value;
    var p3 := Part(s, p2, MINUS, 1, 31).value;
    var p4 := Part(s, p3, UPPER_T, 0, 23).value;
    var p5 := Part(s, p4, COLON, 0, 59).value;
    var p6 := Part(s, p5, COLON, 0, 60).value;
    AtNone(s, p6);
    PartStands(s, p5, COLON, 0, 60, p6, []);
    var fraction := FractionStands(s, p6);
    var t := FractionText(fraction);
    PartStands(s, p5, COLON, 0, 60, p6, t);
    var t5 := After(COLON, s[p5 + 1..p6], t);
    PartStands(s, p4, COLON, 0, 59, p5, t5);
    var t4 := After(COLON, s[p4 + 1..p5], t5);
    PartStands(s, p3, UPPER_T, 0, 23, p4, t4);
    var t3 := After(UPPER_T, s[p3 + 1..p4], t4);
    PartStands(s, p2, MINUS, 1, 31, p3, t3);
    var t2 := After(MINUS, s[p2 + 1..p3], t3);
    PartStands(s, p1, MINUS, 1, 12, p2, t2);
    var t1 := After(MINUS, s[p1 + 1..p2], t2);
    RunIsDigits(s, p);
    AtSlice(s, p, p1);
    AtJoin(s, p, s[p..p1], t1);
    st := Stamp(s[p..p1], s[p1 + 1..p2], s[p2 + 1..p3], s[p3 + 1..p4], s[p4 + 1..p5], s[p5 + 1..p6], fraction);
    NoFraction(fraction);
  }

  // ---------- the zone ----------

  datatype Zone = Utc | Offset(sign: byte, hours: bytes, minutes: bytes)

  /** The hours count modulo 256. */
  predicate IsZone(z: Zone) {
    z.Offset? ==>
      (z.sign == PLUS || z.sign == MINUS) && AllDigits(z.hours) && DigitsValue(z.hours) % 256 <= 23
      && Ranged(z.minutes, 0, 59)
  }

  function OffsetHead(z: Zone): bytes
    requires z.Offset?
  {
    [z.sign] + (z.hours + [COLON])
  }

  /** Behind Z comes the end of the text or a space, which is taken. The minutes of an offset may reach over
      the end of the text into the byte behind it; behind them comes the end of both or a space, which is
      left. */
  predicate ZoneAt(z: Zone, s: bytes, after: byte, p: nat, e: nat) {
    IsZone(z) &&
    if z.Utc? then
      Peek(s, p) == UPPER_Z && p < |s| && (if p + 1 == |s| then e == p + 1 else s[p + 1] == SPACE && e == p + 2)
    else
      var b, m := s + [after], p + |OffsetHead(z)|;
      var n := m + |z.minutes|;
      && At(s, p, OffsetHead(z)) && At(b, m, z.minutes)
      && (if n >= |b| then e == |s| else b[n] == SPACE && e == n)
  }

  /** What the timestamp parser makes of the zone. */
  function ZoneEnd(s: bytes, after: byte, p: nat): Option<nat>
    requires p < |s|
  {
    if s[p] == UPPER_Z then Zulu(s, p) else NumericOffset(s, after, p)
  }

  lemma {:induction false} OffsetTaken(z: Zone, s: bytes, after: byte, p: nat, e: nat)
    requires z.Offset? && ZoneAt(z, s, after, p, e)
    ensures p < |s| && ZoneEnd(s, after, p) == Some(e)
  {
    hide At, DigitsValue, AllDigits, RunEnd;
    var b, c := s + [after], p + 1 + |z.hours|;
    AtSplit(s, p, [z.sign], z.hours + [COLON]);
    AtFirst(s, p, [z.sign]);
    AtSplit(s, p + 1, z.hours, [COLON]);
    AtFirst(s, c, [COLON]);
    AtIs(s, c, [COLON]);
    RunIs(z.hours, s, p + 1);
    AtIs(b, c + 1, z.minutes);
    RunIs(z.minutes, b, c + 1);
  }

  lemma {:induction false} OffsetStands(s: bytes, after: byte, p: nat, e: nat) returns (z: Zone)
    requires p < |s| && NumericOffset(s, after, p) == Some(e)
    ensures ZoneAt(z, s, after, p, e)
  {
    hide At, DigitsValue, AllDigits;
    var b, c := s + [after], RunEnd(s, p + 1);
    var n := RunEnd(b, c + 1);
    z := Offset(s[p], s[p + 1..c], b[c + 1..n]);
    RunIsDigits(s, p + 1);
    RunIsDigits(b, c + 1);
    AtOne(s, c);
    AtSlice(s, p + 1, c);
    AtJoin(s, p + 1, s[p + 1..c], [COLON]);
    AtOne(s, p);
    AtJoin(s, p, [s[p]], s[p + 1..c] + [COLON]);
    AtSlice(b, c + 1, n);
  }

  /** From p on stands a stamp with a zone, and the parser goes on at e. */
  ghost predicate TimestampAt(st: Stamp, z: Zone, s: bytes, after: byte, p: nat, q: nat, e: nat) {
    StampAt(st, s, p, q) && ZoneAt(z, s, after, q, e)
  }

  /** The parser takes exactly these timestamps: every part a run of digits in its range, the separators, and a
      zone. */
  lemma {:induction false} TimestampTaken(s: bytes, after: byte, p: nat, e: nat)
    requires p <= |s|
    ensures RFC5424End(s, after, p) == Some(e) <==> exists st, z, q :: TimestampAt(st, z, s, after, p, q, e)
  {
    hide StampAt, ZoneAt, DateTime, Zulu, NumericOffset;
    if RFC5424End(s, after, p) == Some(e) {
      var q := DateTime(s, p).value;
      var st := StampStands(s, p, q);
      var z := ZoneStands(s, after, q, e);
      assert TimestampAt(st, z, s, after, p, q, e);
    }
    if st, z, q :| TimestampAt(st, z, s, after, p, q, e) {
      StampTaken(st, s, p, q);
      ZoneTaken(z, s, after, q, e);
    }
  }

  lemma {:induction false} ZoneStands(s: bytes, after: byte, p: nat, e: nat) returns (z: Zone)
    requires p < |s| && ZoneEnd(s, after, p) == Some(e)
    ensures ZoneAt(z, s, after, p, e)
  {
    hide NumericOffset, At;
    if s[p] == UPPER_Z {
      z := Utc;
    } else {
      z := OffsetStands(s, after, p, e);
    }
  }

  lemma {:induction false} ZoneTaken(z: Zone, s: bytes, after: byte, p: nat, e: nat)
    requires ZoneAt(z, s, after, p, e)
    ensures p < |s| && ZoneEnd(s, after, p) == Some(e)
  {
    hide NumericOffset, At;
    if z.Offset? {
      OffsetTaken(z, s, after, p, e);
    }
  }
}
