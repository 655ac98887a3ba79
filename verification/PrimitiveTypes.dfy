/** primitivetype.c: the recognisers of dates, times and addresses, against numeric ranges. */
module PrimitiveTypes {
  import opened Bytes
  import opened CText
  import opened JsonNumber
  import opened Fields

  // ---------- digits ----------

  /** The number at p; an empty digit run counts as zero. */
  function Number(s: bytes, p: nat): nat
    requires p <= |s|
  {
    RunIsDigits(s, p);
    DigitsValue(s[p..RunEnd(s, p)])
  }

  /** hParseInt: advances over the digits at p. */
  method ParseInt(s: bytes, p: nat) returns (i: nat, q: nat)
    requires p <= |s|
    ensures q == RunEnd(s, p) && q <= |s| && i == Number(s, p)
  {
    hide DigitsValue, AllDigits;
    NoDigits(s, p);
    RunIsDigits(s, p);
    i, q := 0, p;
    NoneTaken(s, p);
    while q < |s| && IsDigit(s[q])
      invariant p <= q <= |s| && RunEnd(s, q) == RunEnd(s, p)
      invariant AllDigits(s[p..q]) && i == DigitsValue(s[p..q])
    {
      OneMore(s, p, q);
      i := i * 10 + (s[q] - ZERO);
      q := q + 1;
    }
  }

  // ---------- two digits in a range ----------

  predicate TwoDigits(s: bytes, p: nat) {
    IsDigit(Peek(s, p)) && IsDigit(Peek(s, p + 1))
  }

  function Two(s: bytes, p: nat): nat
    requires TwoDigits(s, p)
  {
    (Peek(s, p) - ZERO) * 10 + (Peek(s, p + 1) - ZERO)
  }

  predicate TwoWithin(s: bytes, p: nat, lo: nat, hi: nat) {
    TwoDigits(s, p) && lo <= Two(s, p) <= hi
  }

  /** YYYY-MM-DD with a month of 1 to 12 and a day of 1 to 31. */
  predicate IsISODate(s: bytes, p: nat) {
    && p + 10 <= |s|
    && TwoDigits(s, p) && TwoDigits(s, p + 2) && s[p + 4] == MINUS
    && TwoWithin(s, p + 5, 1, 12) && s[p + 7] == MINUS
    && TwoWithin(s, p + 8, 1, 31)
  }

  /** HH:MM:SS with an hour within the bounds, and minutes and seconds of 0 to 59. */
  predicate IsTime(s: bytes, p: nat, hours: nat) {
    && p + 8 <= |s|
    && TwoWithin(s, p, 0, hours) && s[p + 2] == COLON
    && TwoWithin(s, p + 3, 0, 59) && s[p + 5] == COLON
    && TwoWithin(s, p + 6, 0, 59)
  }

  /** The result of a primitive parser: it takes the text from offs to next, or nothing. */
  ghost predicate Takes(s: bytes, offs: nat, accepted: bool, next: nat, r: int, offs': nat, value: Option<bytes>) {
    if accepted then r == EE_OK && offs <= offs' == next <= |s| && value == Some(s[offs..next])
    else r == EE_WRONGPARSER && offs' == offs && value == None
  }

  /** ISODate, character by character. */
  method ParseISODate(s: bytes, offs: nat) returns (r: int, offs': nat, value: Option<bytes>)
    requires offs <= |s|
    ensures Takes(s, offs, IsISODate(s, offs), offs + 10, r, offs', value)
  {
    r, offs', value := EE_WRONGPARSER, offs, None;
    var i := offs;
    if offs + 10 > |s| { return; }
    if !IsDigit(s[i]) { return; }
    if !IsDigit(s[i + 1]) { return; }
    if !IsDigit(s[i + 2]) { return; }
    if !IsDigit(s[i + 3]) { return; }
    if s[i + 4] != MINUS { return; }
    if s[i + 5] == ZERO {
      if s[i + 6] < 0x31 || s[i + 6] > NINE { return; }
    } else if s[i + 5] == 0x31 {
      if s[i + 6] < ZERO || s[i + 6] > 0x32 { return; }
    } else {
      return;
    }
    if s[i + 7] != MINUS { return; }
    if s[i + 8] == ZERO {
      if s[i + 9] < 0x31 || s[i + 9] > NINE { return; }
    } else if s[i + 8] == 0x31 || s[i + 8] == 0x32 {
      if !IsDigit(s[i + 9]) { return; }
    } else if s[i + 8] == 0x33 {
      if s[i + 9] != ZERO && s[i + 9] != 0x31 { return; }
    } else {
      return;
    }
    r, offs', value := EE_OK, offs + 10, Some(s[offs..offs + 10]);
  }

  /** The part of the two time parsers after the hour. */
  method ParseMinutes(s: bytes, i: nat) returns (ok: bool)
    requires i + 8 <= |s|
    ensures ok <==> s[i + 2] == COLON && TwoWithin(s, i + 3, 0, 59) && s[i + 5] == COLON && TwoWithin(s, i + 6, 0, 59)
  {
    if s[i + 2] != COLON { return false; }
    if s[i + 3] < ZERO || s[i + 3] > 0x35 { return false; }
    if !IsDigit(s[i + 4]) { return false; }
    if s[i + 5] != COLON { return false; }
    if s[i + 6] < ZERO || s[i + 6] > 0x35 { return false; }
    if !IsDigit(s[i + 7]) { return false; }
    return true;
  }

  /** Time24hr */
  method ParseTime24hr(s: bytes, offs: nat) returns (r: int, offs': nat, value: Option<bytes>)
    requires offs <= |s|
    ensures Takes(s, offs, IsTime(s, offs, 23), offs + 8, r, offs', value)
  {
    r, offs', value := EE_WRONGPARSER, offs, None;
    if offs + 8 > |s| { return; }
    if s[offs] == ZERO || s[offs] == 0x31 {
      if !IsDigit(s[offs + 1]) { return; }
    } else if s[offs] == 0x32 {
      if s[offs + 1] < ZERO || s[offs + 1] > 0x33 { return; }
    } else {
      return;
    }
    var ok := ParseMinutes(s, offs);
    if !ok { return; }
    r, offs', value := EE_OK, offs + 8, Some(s[offs..offs + 8]);
  }

  /** Time12hr: hours of 00 to 12. */
  method ParseTime12hr(s: bytes, offs: nat) returns (r: int, offs': nat, value: Option<bytes>)
    requires offs <= |s|
    ensures Takes(s, offs, IsTime(s, offs, 12), offs + 8, r, offs', value)
  {
    r, offs', value := EE_WRONGPARSER, offs, None;
    if offs + 8 > |s| { return; }
    if s[offs] == ZERO {
      if !IsDigit(s[offs + 1]) { return; }
    } else if s[offs] == 0x31 {
      if s[offs + 1] < ZERO || s[offs + 1] > 0x32 { return; }
    } else {
      return;
    }
    var ok := ParseMinutes(s, offs);
    if !ok { return; }
    r, offs', value := EE_OK, offs + 8, Some(s[offs..offs + 8]);
  }

  // ---------- RFC 5424 timestamps ----------

  /** Past the separator at p and the number after it, if that number is in range. */
  function Part(s: bytes, p: nat, sep: byte, lo: nat, hi: nat): (q: Option<nat>)
    ensures q.Some? ==> p < q.value <= |s|
  {
    if p < |s| && s[p] == sep && lo <= Number(s, p + 1) <= hi then Some(RunEnd(s, p + 1)) else None
  }

  /** Past a fraction of a second, if there is one. */
  function Fraction(s: bytes, p: nat): (q: nat)
    requires p <= |s|
    ensures p <= q <= |s|
  {
    if p < |s| && s[p] == DOT then RunEnd(s, p + 1) else p
  }

  /** From the year to the fraction of the second. */
  function DateTime(s: bytes, p: nat): (q: Option<nat>)
    requires p <= |s|
    ensures q.Some? ==> p < q.value <= |s|
  {
    var month := Part(s, RunEnd(s, p), MINUS, 1, 12);
    if month.None? then None else
    var day := Part(s, month.value, MINUS, 1, 31);
    if day.None? then None else
    var hour := Part(s, day.value, UPPER_T, 0, 23);
    if hour.None? then None else
    var minute := Part(s, hour.value, COLON, 0, 59);
    if minute.None? then None else
    var second := Part(s, minute.value, COLON, 0, 60);
    if second.None? then None else Some(Fraction(s, second.value))
  }

  /** Z, and then the end of the text or a space, which is taken. */
  function Zulu(s: bytes, p: nat): Option<nat>
    requires p < |s|
  {
    if s[p] != UPPER_Z then None
    else if p + 1 == |s| then Some(p + 1)
    else if s[p + 1] == SPACE then Some(p + 2) else None
  }

  /** A numeric offset. The hours are kept in a char, so only their value modulo 256 is tested. The
      colon is not counted, so the parser looks one byte beyond the text, at the byte after, where it
      wants a space even if the text has ended; and the space is not taken. */
  function NumericOffset(s: bytes, after: byte, p: nat): (q: Option<nat>)
    requires p < |s|
    ensures q.Some? ==> p < q.value <= |s|
  {
    var c := RunEnd(s, p + 1);
    if (s[p] != PLUS && s[p] != MINUS) || Number(s, p + 1) % 256 > 23 || c == |s| || s[c] != COLON then None
    else
      var b := s + [after];
      var e := RunEnd(b, c + 1);
      if Number(b, c + 1) > 59 then None
      else if e == |b| then Some(|s|)
      else if b[e] == SPACE then Some(e) else None
  }

  /** Where the timestamp at p ends, if there is one; after is the byte in memory behind the text. */
  function RFC5424End(s: bytes, after: byte, p: nat): Option<nat>
    requires p <= |s|
  {
    var z := DateTime(s, p);
    if z.None? || z.value == |s| then None
    else if s[z.value] == UPPER_Z then Zulu(s, z.value)
    else NumericOffset(s, after, z.value)
  }

  /** One separator and one number in range. */
  method ParsePart(s: bytes, p: nat, sep: byte, lo: nat, hi: nat) returns (ok: bool, q: nat)
    requires p <= |s|
    ensures ok == Part(s, p, sep, lo, hi).Some?
    ensures ok ==> q == Part(s, p, sep, lo, hi).value
  {
    if p == |s| || s[p] != sep {
      return false, p;
    }
    var i;
    i, q := ParseInt(s, p + 1);
    ok := lo <= i <= hi;
  }

  /** The numeric offset at p: the bytes left are counted in len, one too many after the colon. */
  method ParseOffset(s: bytes, after: byte, p: nat) returns (ok: bool, p': nat, len: nat)
    requires p < |s| && (s[p] == PLUS || s[p] == MINUS)
    ensures ok == NumericOffset(s, after, p).Some?
    ensures ok ==> len <= |s| && |s| - len == NumericOffset(s, after, p).value
  {
    var offsetHour, offsetMinute;
    offsetHour, p' := ParseInt(s, p + 1);
    len := |s| - p';
    if offsetHour % 256 > 23 {
      return false, p', len;
    }
    if len == 0 || s[p'] != COLON {
      return false, p', len;
    }
    var b := s + [after];
    offsetMinute, p' := ParseInt(b, p' + 1);
    len := |b| - p';
    if offsetMinute > 59 {
      return false, p', len;
    }
    if len > 0 {
      if b[p'] != SPACE {
        return false, p', len;
      }
      p', len := p' + 1, len - 1;
    }
    ok := true;
  }

  /** RFC5424Date */
  method ParseRFC5424Date(s: bytes, after: byte, offs: nat) returns (r: int, offs': nat, value: Option<bytes>)
    requires offs < |s|
    ensures var e := RFC5424End(s, after, offs);
      Takes(s, offs, e.Some?, if e.Some? then e.value else offs, r, offs', value)
  {
    hide DateTime, NumericOffset;
    r, offs', value := EE_WRONGPARSER, offs, None;
    var ok, p := ParseDateTime(s, offs);
    if !ok || p == |s| {
      return;
    }
    var len := |s| - p;
    if s[p] == UPPER_Z {
      p, len := p + 1, len - 1;
      if len > 0 {
        if s[p] != SPACE {
          return;
        }
        p, len := p + 1, len - 1;
      }
    } else if s[p] == PLUS || s[p] == MINUS {
      ok, p, len := ParseOffset(s, after, p);
      if !ok {
        return;
      }
    } else {
      NeedsSign(s, after, p);
      return;
    }
    var usedLen := |s| - offs - len;
    r, offs', value := EE_OK, offs + usedLen, Some(s[offs..offs + usedLen]);
  }

  lemma {:induction false} NeedsSign(s: bytes, after: byte, p: nat)
    requires p < |s| && s[p] != PLUS && s[p] != MINUS
    ensures NumericOffset(s, after, p).None?
  {}

  /** The parser up to the fraction of the second. */
  method ParseDateTime(s: bytes, offs: nat) returns (ok: bool, p: nat)
    requires offs <= |s|
    ensures ok == DateTime(s, offs).Some?
    ensures ok ==> p == DateTime(s, offs).value
  {
    hide Part, RunEnd, Number;
    var year;
    year, p := ParseInt(s, offs);
    ok, p := ParsePart(s, p, MINUS, 1, 12);
    if !ok { return; }
    ok, p := ParsePart(s, p, MINUS, 1, 31);
    if !ok { return; }
    ok, p := ParsePart(s, p, UPPER_T, 0, 23);
    if !ok { return; }
    ok, p := ParsePart(s, p, COLON, 0, 59);
    if !ok { return; }
    ok, p := ParsePart(s, p, COLON, 0, 60);
    if !ok { return; }
    if p < |s| && s[p] == DOT {
      var secfrac;
      secfrac, p := ParseInt(s, p + 1);
    }
  }

  // ---------- the two kinds of date agree ----------

  lemma {:induction false} TwoIsNumber(s: bytes, p: nat)
    requires p + 2 < |s| && TwoDigits(s, p) && !IsDigit(s[p + 2])
    ensures RunEnd(s, p) == p + 2 && Number(s, p) == Two(s, p)
  {
    assert RunEnd(s, p + 1) == p + 2;
    NoneTaken(s, p);
    OneMore(s, p, p);
    OneMore(s, p, p + 1);
  }

  lemma {:induction false} FourIsRun(s: bytes, p: nat)
    requires p + 4 < |s| && TwoDigits(s, p) && TwoDigits(s, p + 2) && !IsDigit(s[p + 4])
    ensures RunEnd(s, p) == p + 4
  {
    assert RunEnd(s, p + 3) == p + 4;
    assert RunEnd(s, p + 2) == p + 4;
  }

  /** An ISO date, T, and a 24 hour time, as the two unrolled parsers accept them. */
  predicate IsDateTime(s: bytes, p: nat) {
    IsISODate(s, p) && Peek(s, p + 10) == UPPER_T && IsTime(s, p + 11, 23)
  }

  lemma {:induction false} DateTimeIs(s: bytes, p: nat)
    requires IsDateTime(s, p) && p + 19 < |s| && !IsDigit(s[p + 19]) && s[p + 19] != DOT
    ensures DateTime(s, p) == Some(p + 19)
  {
    hide RunEnd, Number;
    FourIsRun(s, p);
    TwoIsNumber(s, p + 5);
    TwoIsNumber(s, p + 8);
    TwoIsNumber(s, p + 11);
    TwoIsNumber(s, p + 14);
    TwoIsNumber(s, p + 17);
  }

  /** A date and a time, Z, and the end of the text or a space: the timestamp parser takes all of
      it. */
  lemma {:induction false} DatesAgree(s: bytes, after: byte, p: nat)
    requires IsDateTime(s, p) && Peek(s, p + 19) == UPPER_Z
    requires p + 20 == |s| || Peek(s, p + 20) == SPACE
    ensures RFC5424End(s, after, p) == Some(if p + 20 == |s| then p + 20 else p + 21)
  {
    hide IsDateTime, DateTime;
    DateTimeIs(s, p);
  }

  /** +HH:MM with hours and minutes in range. */
  predicate IsOffset(s: bytes, p: nat) {
    && p + 6 <= |s| && (s[p] == PLUS || s[p] == MINUS)
    && TwoWithin(s, p + 1, 0, 23) && s[p + 3] == COLON && TwoWithin(s, p + 4, 0, 59)
  }

  lemma {:induction false} NumericOffsetBefore(s: bytes, after: byte, p: nat)
    requires IsOffset(s, p) && p + 6 < |s| && !IsDigit(s[p + 6])
    ensures NumericOffset(s, after, p) == if s[p + 6] == SPACE then Some(p + 6) else None
  {
    var b := s + [after];
    TwoIsNumber(s, p + 1);
    TwoIsNumber(b, p + 4);
  }

  /** Two digits and one more. */
  lemma {:induction false} ThreeIsNumber(s: bytes, p: nat)
    requires p + 3 == |s| && TwoDigits(s, p) && IsDigit(s[p + 2])
    ensures RunEnd(s, p) == p + 3 && Number(s, p) == Two(s, p) * 10 + (s[p + 2] - ZERO)
  {
    assert RunEnd(s, p + 3) == p + 3 && RunEnd(s, p + 2) == p + 3 && RunEnd(s, p + 1) == p + 3;
    hide AllDigits, DigitsValue;
    NoneTaken(s, p);
    OneMore(s, p, p);
    OneMore(s, p, p + 1);
    OneMore(s, p, p + 2);
  }

  lemma {:induction false} NumericOffsetAtEnd(s: bytes, after: byte, p: nat)
    requires IsOffset(s, p) && p + 6 == |s|
    ensures NumericOffset(s, after, p)
      == if after == SPACE || (IsDigit(after) && Two(s, p + 4) * 10 + (after - ZERO) <= 59) then Some(|s|) else None
  {
    hide RunEnd, Number;
    var b := s + [after];
    TwoIsNumber(s, p + 1);
    if IsDigit(after) {
      ThreeIsNumber(b, p + 4);
    } else {
      TwoIsNumber(b, p + 4);
    }
  }

  /** A well-formed timestamp with a numeric offset and more text behind it is accepted exactly when
      a space follows; the space is left, where after Z it would be taken. */
  lemma {:induction false} OffsetBeforeText(s: bytes, after: byte, p: nat)
    requires IsDateTime(s, p) && IsOffset(s, p + 19) && p + 25 < |s| && !IsDigit(s[p + 25])
    ensures RFC5424End(s, after, p) == if s[p + 25] == SPACE then Some(p + 25) else None
  {
    hide IsDateTime, DateTime, NumericOffset;
    DateTimeIs(s, p);
    NumericOffsetBefore(s, after, p + 19);
  }

  /** At the end of the text such a timestamp is accepted exactly when the byte in memory behind the
      text is a space, or a digit that keeps the minutes in range. */
  lemma {:induction false} OffsetAtEnd(s: bytes, after: byte, p: nat)
    requires IsDateTime(s, p) && IsOffset(s, p + 19) && p + 25 == |s|
    ensures RFC5424End(s, after, p)
      == if after == SPACE || (IsDigit(after) && Two(s, p + 23) * 10 + (after - ZERO) <= 59) then Some(|s|) else None
  {
    hide IsDateTime, DateTime, NumericOffset;
    DateTimeIs(s, p);
    NumericOffsetAtEnd(s, after, p + 19);
  }

  /** 2003-10-11T22:14:15+02:00 */
  const OFFSET_TIMESTAMP: bytes :=
    [0x32, ZERO, ZERO, 0x33, MINUS, 0x31, ZERO, MINUS, 0x31, 0x31, 0x54, 0x32, 0x32, COLON, 0x31, 0x34, COLON, 0x31,
     0x35, PLUS, ZERO, 0x32, COLON, ZERO, ZERO]

  lemma {:induction false} OffsetTimestampIs(s: bytes)
    requires OFFSET_TIMESTAMP <= s
    ensures IsDateTime(s, 0) && IsOffset(s, 19) && |OFFSET_TIMESTAMP| == 25
  {
    var t := OFFSET_TIMESTAMP;
    assert s[0] == 0x32 && s[1] == ZERO && s[2] == ZERO && s[3] == 0x33 && s[4] == MINUS;
    assert s[5] == 0x31 && s[6] == ZERO && s[7] == MINUS && s[8] == 0x31 && s[9] == 0x31;
    assert s[10] == UPPER_T && s[11] == 0x32 && s[12] == 0x32 && s[13] == COLON && s[14] == 0x31 && s[15] == 0x34;
    assert s[16] == COLON && s[17] == 0x31 && s[18] == 0x35;
    assert s[19] == PLUS && s[20] == ZERO && s[21] == 0x32 && s[22] == COLON && s[23] == ZERO && s[24] == ZERO;
  }

  /** A well-formed timestamp that is refused when it is the whole of a terminated text, and accepted
      when a space follows in the text. */
  lemma {:induction false} RefusedTimestamp()
    ensures RFC5424End(OFFSET_TIMESTAMP, NUL, 0) == None
    ensures RFC5424End(OFFSET_TIMESTAMP + [SPACE], NUL, 0) == Some(25)
  {
    hide IsDateTime, IsOffset, RFC5424End;
    OffsetTimestampIs(OFFSET_TIMESTAMP);
    OffsetTimestampIs(OFFSET_TIMESTAMP + [SPACE]);
    OffsetAtEnd(OFFSET_TIMESTAMP, NUL, 0);
    OffsetBeforeText(OFFSET_TIMESTAMP + [SPACE], NUL, 0);
  }

  // ---------- IPv4 addresses ----------

  /** Past one to three digits whose value is at most 255. */
  function AddrByte(s: bytes, p: nat): (q: Option<nat>)
    ensures q.Some? ==> p < q.value <= |s|
  {
    if !IsDigit(Peek(s, p)) then None
    else
      var n := if !IsDigit(Peek(s, p + 1)) then 1 else if !IsDigit(Peek(s, p + 2)) then 2 else 3;
      var v := if n == 1 then Peek(s, p) - ZERO
               else if n == 2 then Two(s, p)
               else Two(s, p) * 10 + (Peek(s, p + 2) - ZERO);
      if v > 255 then None else Some(p + n)
  }

  /** Past a dot and one more address byte. */
  function DotByte(s: bytes, p: nat): (q: Option<nat>)
    ensures q.Some? ==> p < q.value <= |s|
  {
    if Peek(s, p) == DOT then AddrByte(s, p + 1) else None
  }

  /** Where the address at p ends, if there is one. */
  function IPv4End(s: bytes, p: nat): (q: Option<nat>)
    ensures q.Some? ==> p < q.value <= |s|
  {
    var a := AddrByte(s, p);
    if a.None? then None else
    var b := DotByte(s, a.value);
    if b.None? then None else
    var c := DotByte(s, b.value);
    if c.None? then None else DotByte(s, c.value)
  }

  /** chkIPv4AddrByte */
  method CheckAddrByte(s: bytes, offs: nat) returns (r: int, offs': nat)
    requires offs <= |s|
    ensures r == (if AddrByte(s, offs).Some? then 0 else 1)
    ensures offs' == if r == 0 then AddrByte(s, offs).value else offs
  {
    r, offs' := 1, offs;
    var i := offs;
    if i == |s| || !IsDigit(s[i]) {
      return;
    }
    var val: int := s[i] - ZERO;
    i := i + 1;
    if i < |s| && IsDigit(s[i]) {
      val := val * 10 + (s[i] - ZERO);
      i := i + 1;
      if i < |s| && IsDigit(s[i]) {
        val := val * 10 + (s[i] - ZERO);
        i := i + 1;
      }
    }
    if val > 255 {
      return;
    }
    r, offs' := 0, i;
  }

  /** IPv4 */
  method ParseIPv4(s: bytes, offs: nat) returns (r: int, offs': nat, value: Option<bytes>)
    requires offs <= |s|
    ensures var e := IPv4End(s, offs);
      Takes(s, offs, e.Some?, if e.Some? then e.value else offs, r, offs', value)
  {
    AddressLength(s, offs);
    hide AddrByte;
    r, offs', value := EE_WRONGPARSER, offs, None;
    var i := offs;
    if |s| - i + 1 < 7 {
      return;
    }
    var bad;
    bad, i := CheckAddrByte(s, i);
    if bad != 0 { return; }
    if i == |s| || s[i] != DOT { return; }
    bad, i := CheckAddrByte(s, i + 1);
    if bad != 0 { return; }
    if i == |s| || s[i] != DOT { return; }
    bad, i := CheckAddrByte(s, i + 1);
    if bad != 0 { return; }
    if i == |s| || s[i] != DOT { return; }
    bad, i := CheckAddrByte(s, i + 1);
    if bad != 0 { return; }
    r, offs', value := EE_OK, i, Some(s[offs..i]);
  }

  /** An address has at least seven characters, so the length test never turns one away. */
  lemma {:induction false} AddressLength(s: bytes, p: nat)
    ensures IPv4End(s, p).Some? ==> p + 7 <= |s|
  {}

  /** One to three digits worth at most 255. */
  predicate ByteText(t: bytes) {
    1 <= |t| <= 3 && AllDigits(t) && DigitsValue(t) <= 255
  }

  lemma {:induction false} ShortValue(t: bytes)
    requires 1 <= |t| <= 3 && AllDigits(t)
    ensures DigitsValue(t) == (
      if |t| == 1 then t[0] - ZERO
      else if |t| == 2 then (t[0] - ZERO) * 10 + (t[1] - ZERO)
      else ((t[0] - ZERO) * 10 + (t[1] - ZERO)) * 10 + (t[2] - ZERO))
  {
    if |t| == 1 {
      assert t[..0] == [];
    } else {
      ShortValue(t[..|t| - 1]);
    }
  }

  lemma {:induction false} ByteTaken(t: bytes, s: bytes, p: nat)
    requires ByteText(t) && At(s, p, t) && (|t| == 3 || !IsDigit(Peek(s, p + |t|)))
    ensures AddrByte(s, p) == Some(p + |t|)
  {
    ShortValue(t);
    hide At, DigitsValue;
    AtIndex(s, p, t, 0);
    if |t| > 1 {
      AtIndex(s, p, t, 1);
    }
    if |t| > 2 {
      AtIndex(s, p, t, 2);
    }
  }

  function DottedText(a: bytes, b: bytes, c: bytes, d: bytes): bytes {
    a + ([DOT] + (b + ([DOT] + (c + ([DOT] + d)))))
  }

  lemma {:induction false} DotByteTaken(t: bytes, s: bytes, p: nat, rest: bytes)
    requires ByteText(t) && At(s, p, [DOT] + (t + rest))
    requires rest == [] ==> |t| == 3 || !IsDigit(Peek(s, p + 1 + |t|))
    requires rest != [] ==> rest[0] == DOT
    ensures DotByte(s, p) == Some(p + 1 + |t|) && At(s, p + 1 + |t|, rest)
  {
    hide AddrByte, ByteText;
    AtSplit(s, p, [DOT], t + rest);
    AtFirst(s, p, [DOT]);
    AtSplit(s, p + 1, t, rest);
    if rest != [] {
      AtFirst(s, p + 1 + |t|, rest);
    }
    ByteTaken(t, s, p + 1);
  }

  /** Four such numbers with dots between them are taken, unless the last could have a digit more. */
  lemma {:induction false} DottedTaken(a: bytes, b: bytes, c: bytes, d: bytes, s: bytes, p: nat, e: nat)
    requires ByteText(a) && ByteText(b) && ByteText(c) && ByteText(d)
    requires At(s, p, DottedText(a, b, c, d)) && e == p + |DottedText(a, b, c, d)|
    requires |d| == 3 || !IsDigit(Peek(s, e))
    ensures IPv4End(s, p) == Some(e)
  {
    hide AddrByte, DotByte, ByteText;
    var r3 := [DOT] + (d + []);
    var r2 := [DOT] + (c + r3);
    var r1 := [DOT] + (b + r2);
    assert d + [] == d;
    AtSplit(s, p, a, r1);
    AtFirst(s, p + |a|, r1);
    ByteTaken(a, s, p);
    DotByteTaken(b, s, p + |a|, r2);
    DotByteTaken(c, s, p + |a| + 1 + |b|, r3);
    DotByteTaken(d, s, p + |a| + 1 + |b| + 1 + |c|, []);
  }

  lemma {:induction false} DigitsValueBig(t: bytes)
    requires AllDigits(t) && |t| > 1 && t[0] != ZERO
    ensures DigitsValue(t) >= 10 && (|t| > 2 ==> DigitsValue(t) >= 100) && (|t| > 3 ==> DigitsValue(t) >= 1000)
    decreases |t|
  {
    if |t| == 2 {
      ShortValue(t);
    } else {
      DigitsValueBig(t[..|t| - 1]);
    }
  }

  /** So is the usual form of a byte. */
  lemma {:induction false} DigitsAreByte(n: byte)
    ensures ByteText(Digits(n))
  {
    DigitsRoundTrip(n);
    if |Digits(n)| > 1 {
      DigitsValueBig(Digits(n));
    }
  }

  lemma {:induction false} ByteIsText(s: bytes, p: nat)
    requires AddrByte(s, p).Some?
    ensures ByteText(s[p..AddrByte(s, p).value])
  {
    hide DigitsValue, AllDigits;
    NoneTaken(s, p);
    OneMore(s, p, p);
    if IsDigit(Peek(s, p + 1)) {
      OneMore(s, p, p + 1);
      if IsDigit(Peek(s, p + 2)) {
        OneMore(s, p, p + 2);
      }
    }
  }

  lemma {:induction false} Joined(s: bytes, p: nat, q: nat, e: nat)
    requires p <= q < e <= |s| && s[q] == DOT
    ensures s[p..e] == s[p..q] + ([DOT] + s[q + 1..e])
  {}

  lemma {:induction false} DotByteIs(s: bytes, p: nat)
    requires DotByte(s, p).Some?
    ensures p < |s| && s[p] == DOT && AddrByte(s, p + 1) == DotByte(s, p)
  {}

  lemma {:induction false} ByteEnds(s: bytes, p: nat)
    requires AddrByte(s, p).Some?
    ensures AddrByte(s, p).value == p + 3 || !IsDigit(Peek(s, AddrByte(s, p).value))
  {}

  /** Whatever is taken is four such numbers with dots between them, and none could have a digit more. */
  lemma {:induction false} AddressIsDotted(s: bytes, p: nat) returns (a: bytes, b: bytes, c: bytes, d: bytes)
    requires IPv4End(s, p).Some?
    ensures ByteText(a) && ByteText(b) && ByteText(c) && ByteText(d)
    ensures s[p..IPv4End(s, p).value] == DottedText(a, b, c, d)
    ensures |d| == 3 || !IsDigit(Peek(s, IPv4End(s, p).value))
  {
    hide ByteText, AddrByte, DotByte;
    var i := AddrByte(s, p).value;
    var j := DotByte(s, i).value;
    var k := DotByte(s, j).value;
    var e := DotByte(s, k).value;
    DotByteIs(s, i);
    DotByteIs(s, j);
    DotByteIs(s, k);
    ByteIsText(s, p);
    ByteIsText(s, i + 1);
    ByteIsText(s, j + 1);
    ByteIsText(s, k + 1);
    ByteEnds(s, k + 1);
    Joined(s, p, i, e);
    Joined(s, i + 1, j, e);
    Joined(s, j + 1, k, e);
    a, b, c, d := s[p..i], s[i + 1..j], s[j + 1..k], s[k + 1..e];
  }

  // ---------- words ----------

  /** The first position from p on that is not before end and holds c, or the end of the text. */
  function FirstOf(s: bytes, p: nat, c: byte): (q: nat)
    requires p <= |s|
    ensures p <= q <= |s| && (q < |s| ==> s[q] == c)
    ensures forall i :: p <= i < q ==> s[i] != c
    decreases |s| - p
  {
    if p == |s| || s[p] == c then p else FirstOf(s, p + 1, c)
  }

  method Search(s: bytes, p: nat, c: byte) returns (i: nat)
    requires p <= |s|
    ensures i == FirstOf(s, p, c)
  {
    i := p;
    while i < |s| && s[i] != c
      invariant p <= i <= |s| && FirstOf(s, i, c) == FirstOf(s, p, c)
    {
      i := i + 1;
    }
  }

  /** Word: up to a space or the end, and not empty. */
  method ParseWord(s: bytes, offs: nat) returns (r: int, offs': nat, value: Option<bytes>)
    requires offs <= |s|
    ensures Takes(s, offs, offs < |s| && s[offs] != SPACE, FirstOf(s, offs, SPACE), r, offs', value)
  {
    r, offs', value := EE_WRONGPARSER, offs, None;
    var i := Search(s, offs, SPACE);
    if i == offs {
      return;
    }
    r, offs', value := EE_OK, i, Some(s[offs..i]);
  }

  /** CharTo: up to the terminator, which must be there, and not empty. */
  method ParseCharTo(s: bytes, offs: nat, cTerm: byte) returns (r: int, offs': nat, value: Option<bytes>)
    requires offs <= |s|
    ensures Takes(s, offs, offs < |s| && s[offs] != cTerm && cTerm in s[offs..], FirstOf(s, offs, cTerm),
                  r, offs', value)
  {
    r, offs', value := EE_WRONGPARSER, offs, None;
    var i := Search(s, offs, cTerm);
    assert i < |s| ==> s[offs..][i - offs] == cTerm;
    if i == offs || i == |s| {
      return;
    }
    r, offs', value := EE_OK, i, Some(s[offs..i]);
  }

  /** QuotedString: the text between two quotes, without them. The first character is not guarded, so
      that at the end of the text the parser goes by the two bytes in memory behind it. */
  method ParseQuotedString(s: bytes, after: byte, after2: byte, offs: nat)
    returns (r: int, offs': nat, value: Option<bytes>)
    requires offs <= |s|
    ensures if offs < |s| && s[offs] == QUOTE && QUOTE in s[offs + 1..]
            then var e := FirstOf(s, offs + 1, QUOTE); r == EE_OK && offs' == e + 1 && value == Some(s[offs + 1..e])
            else if offs == |s| && after == QUOTE && after2 == QUOTE
            then r == EE_OK && offs' == |s| + 2 && value == Some([])
            else r == EE_WRONGPARSER && offs' == offs && value == None
  {
    r, offs', value := EE_WRONGPARSER, offs, None;
    var c := s + [after, after2];
    if c[offs] != QUOTE {
      return;
    }
    var i := offs + 1;
    if i <= |s| {
      i := Search(s, i, QUOTE);
    }
    assert offs < |s| ==> (i < |s| ==> s[offs + 1..][i - offs - 1] == QUOTE);
    if i == |s| || c[i] != QUOTE {
      return;
    }
    r, offs', value := EE_OK, i + 1, Some(if offs == |s| then [] else s[offs + 1..i]);
  }
}
