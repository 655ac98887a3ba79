/** What the parser makes of any text: no NUL bytes, doubles, and a name for every member; and two
    literals that it does not read as the standards say. */
module ParsedText {
  import opened Bytes
  import opened CText
  import opened Unicode
  import opened Reals
  import opened Doubles
  import opened JsonString
  import opened JsonNumber
  import opened JsonDouble
  import opened JsonTree
  import opened JsonParse
  import opened JsonRoundTrip
  import opened JsonStringCode

  /** No raw token is a NUL byte. */
  predicate RawNulFree(ts: seq<Token>) {
    forall i :: 0 <= i < |ts| && ts[i].Raw? ==> ts[i].c != NUL
  }

  lemma {:induction false} TokensNulFree(s: bytes, p: nat)
    requires Inside(s, p)
    ensures RawNulFree(Tokens(s, p))
    decreases |s| - p
  {
    if s[p] == QUOTE || s[p] == NUL {
    } else if s[p] != BACKSLASH {
      TokensNulFree(s, p + 1);
    } else if s[p + 1] != LOWER_U {
      TokensNulFree(s, p + 2);
    } else {
      InsideHex4(s, p + 2);
      TokensNulFree(s, p + 6);
    }
  }

  lemma {:induction false} Utf8NulFree(cp: nat)
    requires 0 < cp <= 0x10_FFFF
    ensures NulFree(Utf8(cp))
  {
    Utf8RoundTrip(cp);
  }

  lemma {:induction false} RawTail(ts: seq<Token>, k: nat)
    requires RawNulFree(ts) && k <= |ts|
    ensures RawNulFree(ts[k..])
  {}

  lemma {:induction false} MeaningNulFree(ts: seq<Token>)
    requires RawNulFree(ts)
    ensures NulFree(Meaning(ts))
  {
    if ts == [] {
    } else {
      RawTail(ts, 1);
      MeaningNulFree(ts[1..]);
      if ts[0].Unit? && ts[0].u != 0 && !IsLow(ts[0].u) {
        if !IsHigh(ts[0].u) {
          Utf8NulFree(ts[0].u);
        } else if |ts| > 1 && ts[1].Unit? {
          RawTail(ts, 2);
          MeaningNulFree(ts[2..]);
          if IsLow(ts[1].u) {
            Utf8NulFree(OredPair(ts[0].u, ts[1].u));
          }
        }
      }
    }
  }

  lemma {:induction false} StringNulFree(s: bytes, p: nat)
    requires Outside(s, p) && ParseString(s, p).Ok?
    ensures NulFree(ParseString(s, p).value)
  {
    TokensNulFree(s, p + 1);
    MeaningNulFree(Tokens(s, p + 1));
  }

  lemma {:induction false} ReadsDouble(s: bytes, p: nat)
    requires p <= |s|
    ensures IsDouble(DoubleAt(s, p))
  {
    var d := ReadNumber(s, p).value;
    hide Rounded, IsDouble, ReadNumber;
    RoundedIsDouble(Times(WithSign(d.negative, DigitsDouble(d.digits)), Rounded(Power(10, d.exponent))));
  }

  lemma {:induction false} ValueProper(s: bytes, p: nat)
    requires Outside(s, p) && ParseValue(s, p).Ok?
    ensures Proper(ParseValue(s, p).value)
    decreases |s| - p, 1
  {
    if At(s, p, NULL_TEXT) || At(s, p, FALSE_TEXT) || At(s, p, TRUE_TEXT) {
    } else if Peek(s, p) == QUOTE {
      StringNulFree(s, p);
    } else if Peek(s, p) == MINUS || IsDigit(Peek(s, p)) {
      ReadsDouble(s, p);
    } else if Peek(s, p) == LBRACKET {
      var q := Skip(s, p + 1);
      if Peek(s, q) != RBRACKET {
        ItemsProper(s, q);
      }
    } else if Peek(s, p) == LBRACE {
      var q := Skip(s, p + 1);
      if Peek(s, q) != RBRACE {
        MembersProper(s, q);
      }
    }
  }

  lemma {:induction false} ItemProper(s: bytes, p: nat)
    requires Outside(s, p) && ParseItem(s, p).Ok?
    ensures Proper(ParseItem(s, p).value)
    decreases |s| - p, 2
  {
    ValueProper(s, Skip(s, p));
  }

  lemma {:induction false} MemberProper(s: bytes, p: nat)
    requires Outside(s, p) && ParseMember(s, p).Ok?
    ensures ParseMember(s, p).value.key.Named? && KeyNulFree(ParseMember(s, p).value.key)
    ensures Proper(ParseMember(s, p).value.value)
    decreases |s| - p, 2
  {
    hide ParseItem;
    StringNulFree(s, Skip(s, p));
    var k := ParseString(s, Skip(s, p));
    ItemProper(s, Skip(s, k.next) + 1);
  }

  lemma {:induction false} ItemsProper(s: bytes, p: nat)
    requires Outside(s, p) && ParseItems(s, p).Ok?
    ensures forall i :: 0 <= i < |ParseItems(s, p).value| ==> Proper(ParseItems(s, p).value[i])
    decreases |s| - p, 3
  {
    ItemProper(s, p);
    var v := ParseItem(s, p);
    var q := Skip(s, v.next);
    if Peek(s, q) != COMMA {
    } else {
      ItemsProper(s, q + 1);
    }
  }

  lemma {:induction false} MembersProper(s: bytes, p: nat)
    requires Outside(s, p) && ParseMembers(s, p).Ok?
    ensures var ms := ParseMembers(s, p).value;
      forall i :: 0 <= i < |ms| ==> ms[i].key.Named? && KeyNulFree(ms[i].key) && Proper(ms[i].value)
    decreases |s| - p, 3
  {
    hide ParseMember;
    MemberProper(s, p);
    var m := ParseMember(s, p);
    var q := Skip(s, m.next);
    if Peek(s, q) != COMMA {
    } else {
      MembersProper(s, q + 1);
    }
  }

  /** Whatever the text, every number in its value is a double, no string or name has a NUL byte, and
      every member has a name. */
  lemma {:induction false} ParsedTexts(s: bytes)
    requires Outside(s, 0) && Parse(s).Ok?
    ensures Proper(Parse(s).value)
  {
    ValueProper(s, Skip(s, 0));
  }

  // ---------- two literals that do not decode as the standards say ----------

  lemma {:induction false} LiteralParses(s: bytes, e: nat)
    requires Outside(s, 0) && Peek(s, 0) == QUOTE && BodyEnd(s, 1) == e && Peek(s, e) == QUOTE
    ensures Parse(s) == Ok(Str(Decode(s, 1)), e + 1)
  {
    NotLiteral(s, 0);
    SkipNothing(s, 0);
    assert ParseString(s, 0) == Ok(Decode(s, 1), e + 1);
    assert ParseValue(s, 0) == Ok(Str(Decode(s, 1)), e + 1);
  }

  /** The C string "\uD840\uDC00", quotes included. */
  const PAIR_LITERAL: bytes :=
    [QUOTE, BACKSLASH, LOWER_U, 0x44, 0x38, 0x34, 0x30, BACKSLASH, LOWER_U, 0x44, 0x43, 0x30, 0x30, QUOTE, NUL]

  lemma {:induction false} PairLiteralIs()
    ensures var s := PAIR_LITERAL;
      && Outside(s, 0) && Peek(s, 0) == QUOTE && Inside(s, 1) && Inside(s, 7) && Inside(s, 13) && Peek(s, 13) == QUOTE
      && UnitAt(s, 1) && Hex4At(s, 3) && Hex4(s, 3) == 0xD840
      && UnitAt(s, 7) && Hex4At(s, 9) && Hex4(s, 9) == 0xDC00
  {
    var s := PAIR_LITERAL;
    InsideHex4(s, 9);
    InsideHex4(s, 3);
    assert Inside(s, 13) && Inside(s, 7) && Inside(s, 1);
  }

  /** A text that is one pair between quotes. */
  lemma {:induction false} PairReads(s: bytes)
    requires Outside(s, 0) && Peek(s, 0) == QUOTE && Inside(s, 1) && Inside(s, 7) && Inside(s, 13)
    requires Peek(s, 13) == QUOTE
    requires UnitAt(s, 1) && Hex4At(s, 3) && IsHigh(Hex4(s, 3))
    requires UnitAt(s, 7) && Hex4At(s, 9) && IsLow(Hex4(s, 9))
    ensures Parse(s) == Ok(Str(Utf8(OredPair(Hex4(s, 3), Hex4(s, 9)))), 14)
    ensures Tokens(s, 1) == [Unit(Hex4(s, 3)), Unit(Hex4(s, 9))]
  {
    hide Hex4, Hex4At, Utf8, OredPair, Parse;
    TokensUnit(s, 7);
    TokensUnit(s, 1);
    DecodeHigh(s, 1);
    DecodeDone(s, 13, Utf8(OredPair(Hex4(s, 3), Hex4(s, 9))));
    LiteralParses(s, 13);
  }

  lemma {:induction false} PairDenotes(hi: unit16, lo: unit16)
    requires IsHigh(hi) && IsLow(lo)
    ensures var ts := [Unit(hi), Unit(lo)]; Sound(ts) && Utf16Meaning(ts) == Utf8(Utf16Pair(hi, lo))
  {
    var ts := [Unit(hi), Unit(lo)];
    assert ts[2..] == [] && Utf16Meaning([]) == [];
  }

  /** The pair D840 DC00, which is U+20000, is read as U+10000. */
  lemma {:induction false} Bit6PairExample()
    ensures var s := PAIR_LITERAL;
      && Outside(s, 0) && Parse(s) == Ok(Str(Utf8(0x1_0000)), 14)
      && Tokens(s, 1) == [Unit(0xD840), Unit(0xDC00)] && Sound(Tokens(s, 1))
      && Utf16Meaning(Tokens(s, 1)) == Utf8(0x2_0000)
  {
    hide Utf8, Utf16Meaning, Sound, Outside, Inside, Hex4, Hex4At, UnitAt, Tokens, Parse, Peek;
    PairLiteralIs();
    PairReads(PAIR_LITERAL);
    PairDenotes(0xD840, 0xDC00);
  }

  /** The C string "\u0000", quotes included. */
  const ZERO_LITERAL: bytes := [QUOTE, BACKSLASH, LOWER_U, ZERO, ZERO, ZERO, ZERO, QUOTE, NUL]

  /** The escape of the character zero leaves nothing. */
  lemma {:induction false} ZeroUnitExample()
    ensures var s := ZERO_LITERAL;
      && Outside(s, 0) && Parse(s) == Ok(Str([]), 8)
      && Tokens(s, 1) == [Unit(0)] && Sound(Tokens(s, 1)) && Utf16Meaning(Tokens(s, 1)) == [NUL]
  {
    var s := ZERO_LITERAL;
    InsideHex4(s, 3);
    assert Inside(s, 7) && Inside(s, 1);
    TokensUnit(s, 1);
    DecodeUnit(s, 1);
    LiteralParses(s, 7);
    var ts := Tokens(s, 1);
    assert ts == [Unit(0)] && ts[1..] == [];
  }
}
