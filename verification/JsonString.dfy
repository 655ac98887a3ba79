/** The text of JSON string literals: the declarative decoder and the printer's escaping. */
module JsonString {
  import opened Bytes
  import opened CText
  import opened Seqs
  import opened Unicode

  // ---------- reading ----------

  /** Section 2.5 of RFC 4627: a literal is a run of raw bytes and sixteen-bit code units. */
  datatype Token = Raw(c: byte) | Unit(u: unit16)

  /** The byte a two-character escape stands for; an unknown letter stands for itself. */
  function Unescape(c: byte): byte {
    if c == LOWER_B then BACKSPACE
    else if c == LOWER_F then FORMFEED
    else if c == LOWER_N then LINEFEED
    else if c == LOWER_R then RETURN
    else if c == LOWER_T then TAB
    else c
  }

  /** Section 2.5 of RFC 4627: the letters with a meaning of their own. */
  const LETTERS: map<byte, byte> :=
    map[LOWER_B := 0x08, LOWER_F := 0x0C, LOWER_N := 0x0A, LOWER_R := 0x0D, LOWER_T := 0x09]

  lemma {:induction false} LettersMean(c: byte)
    ensures Unescape(c) == if c in LETTERS then LETTERS[c] else c
  {}

  /** The position of the quote or terminator that ends the literal body at p. */
  function BodyEnd(s: bytes, p: nat): (e: nat)
    requires Inside(s, p)
    ensures p <= e && (Peek(s, e) == QUOTE || Peek(s, e) == NUL)
    ensures Inside(s, e)
    decreases |s| - p
  {
    if s[p] == QUOTE || s[p] == NUL then p
    else if s[p] == BACKSLASH then BodyEnd(s, p + 2)
    else BodyEnd(s, p + 1)
  }

  /** What the measuring pass counts: one for every plain byte and every escape it steps over. */
  function Measure(s: bytes, p: nat): nat
    requires Inside(s, p)
    decreases |s| - p
  {
    if s[p] == QUOTE || s[p] == NUL then 0
    else if s[p] == BACKSLASH then 1 + Measure(s, p + 2)
    else 1 + Measure(s, p + 1)
  }

  function Tokens(s: bytes, p: nat): seq<Token>
    requires Inside(s, p)
    decreases |s| - p
  {
    if s[p] == QUOTE || s[p] == NUL then []
    else if s[p] != BACKSLASH then [Raw(s[p])] + Tokens(s, p + 1)
    else if s[p + 1] != LOWER_U then [Raw(Unescape(s[p + 1]))] + Tokens(s, p + 2)
    else InsideHex4(s, p + 2); [Unit(Hex4(s, p + 2))] + Tokens(s, p + 6)
  }

  /** The bytes cjson.c stores for a token run: zero units and unpaired halves vanish, a high
      half swallows a following unit that is not a low half, and pairs are ored together. */
  function Meaning(ts: seq<Token>): bytes
  {
    if ts == [] then []
    else if ts[0].Raw? then [ts[0].c] + Meaning(ts[1..])
    else
      var u := ts[0].u;
      if u == 0 || IsLow(u) then Meaning(ts[1..])
      else if !IsHigh(u) then Utf8(u) + Meaning(ts[1..])
      else if |ts| == 1 || ts[1].Raw? then Meaning(ts[1..])
      else if !IsLow(ts[1].u) then Meaning(ts[2..])
      else Utf8(OredPair(u, ts[1].u)) + Meaning(ts[2..])
  }

  /** Every surrogate half stands in a pair, so that the units denote something in UTF-16. */
  predicate Sound(ts: seq<Token>) {
    if ts == [] then true
    else if ts[0].Raw? then Sound(ts[1..])
    else if IsHigh(ts[0].u) then |ts| > 1 && ts[1].Unit? && IsLow(ts[1].u) && Sound(ts[2..])
    else !IsLow(ts[0].u) && Sound(ts[1..])
  }

  /** UTF-8 of what the units denote in UTF-16; the zero unit denotes the character zero. */
  function Utf16Meaning(ts: seq<Token>): bytes
    requires Sound(ts)
  {
    if ts == [] then []
    else if ts[0].Raw? then [ts[0].c] + Utf16Meaning(ts[1..])
    else if IsHigh(ts[0].u) then Utf8(Utf16Pair(ts[0].u, ts[1].u)) + Utf16Meaning(ts[2..])
    else Utf8(ts[0].u) + Utf16Meaning(ts[1..])
  }

  /** Some pair has bit 6 of its high half set. */
  predicate HasBit6Pair(ts: seq<Token>)
    requires Sound(ts)
  {
    if ts == [] then false
    else if ts[0].Unit? && IsHigh(ts[0].u) then Bit6(ts[0].u) || HasBit6Pair(ts[2..])
    else HasBit6Pair(ts[1..])
  }

  /** How many units are zero. */
  function ZeroUnits(ts: seq<Token>): nat {
    if ts == [] then 0 else (if ts[0] == Unit(0) then 1 else 0) + ZeroUnits(ts[1..])
  }

  /** Wherever the units denote something, the parser decodes as the standards say exactly when no
      unit is zero and no pair's high half has bit 6 set; it loses one byte for each zero unit. */
  lemma {:induction false} MeaningIsUtf16(ts: seq<Token>)
    requires Sound(ts)
    ensures |Meaning(ts)| + ZeroUnits(ts) == |Utf16Meaning(ts)|
    ensures Meaning(ts) == Utf16Meaning(ts) <==> ZeroUnits(ts) == 0 && !HasBit6Pair(ts)
  {
    if ts == [] {
    } else if ts[0].Unit? && IsHigh(ts[0].u) {
      var u, rest := ts[0].u, ts[2..];
      MeaningIsUtf16(rest);
      var a, b := OredPair(u, ts[1].u), Utf16Pair(u, ts[1].u);
      PairExact(u, ts[1].u);
      Utf8RoundTrip(a);
      Utf8RoundTrip(b);
      SameFront(Utf8(a), Utf8(b), Meaning(rest), Utf16Meaning(rest));
      assert ts[1..][1..] == rest;
    } else {
      var rest := ts[1..];
      MeaningIsUtf16(rest);
      var a := if ts[0].Raw? then [ts[0].c] else Utf8(ts[0].u);
      SameFront(a, a, Meaning(rest), Utf16Meaning(rest));
    }
  }

  /** What units stand for, alone or two together: a character, a surrogate pair, or nothing. */
  datatype Group = Self(c: byte) | Character(u: unit16) | Surrogates(hi: unit16, lo: unit16) | Lost(us: seq<unit16>)

  /** Zero and a low half without its high half are lost; so is a high half, and with it the unit behind it,
      if there is one. */
  predicate IsGroup(g: Group) {
    match g
    case Self(_) => true
    case Character(u) => u != 0 && !IsHigh(u) && !IsLow(u)
    case Surrogates(hi, lo) => IsHigh(hi) && IsLow(lo)
    case Lost(us) =>
      || (|us| == 1 && (us[0] == 0 || IsLow(us[0]) || IsHigh(us[0])))
      || (|us| == 2 && IsHigh(us[0]) && !IsLow(us[1]))
  }

  predicate AreGroups(gs: seq<Group>) {
    gs == [] ||
      (IsGroup(gs[0]) && AreGroups(gs[1..]) && (HighAlone(gs[0]) ==> |gs| == 1 || gs[1].Self?))
  }

  predicate HighAlone(g: Group) {
    g.Lost? && |g.us| == 1 && IsHigh(g.us[0])
  }

  function GroupTokens(g: Group): seq<Token>
    requires IsGroup(g)
  {
    match g
    case Self(c) => [Raw(c)]
    case Character(u) => [Unit(u)]
    case Surrogates(hi, lo) => [Unit(hi), Unit(lo)]
    case Lost(us) => if |us| == 1 then [Unit(us[0])] else [Unit(us[0]), Unit(us[1])]
  }

  function GroupBytes(g: Group): bytes
    requires IsGroup(g)
  {
    match g
    case Self(c) => [c]
    case Character(u) => Utf8(u)
    case Surrogates(hi, lo) => Utf8(OredPair(hi, lo))
    case Lost(_) => []
  }

  function TokensOf(gs: seq<Group>): seq<Token>
    requires AreGroups(gs)
  {
    if gs == [] then [] else GroupTokens(gs[0]) + TokensOf(gs[1..])
  }

  function BytesOf(gs: seq<Group>): bytes
    requires AreGroups(gs)
  {
    if gs == [] then [] else GroupBytes(gs[0]) + BytesOf(gs[1..])
  }

  lemma {:induction false} OneToken(x: Token, rest: seq<Token>)
    ensures x.Raw? ==> Meaning([x] + rest) == [x.c] + Meaning(rest)
    ensures x.Unit? && x.u != 0 && !IsLow(x.u) && !IsHigh(x.u) ==> Meaning([x] + rest) == Utf8(x.u) + Meaning(rest)
    ensures x.Unit? && (x.u == 0 || IsLow(x.u)) ==> Meaning([x] + rest) == Meaning(rest)
    ensures x.Unit? && IsHigh(x.u) && (rest == [] || rest[0].Raw?) ==> Meaning([x] + rest) == Meaning(rest)
  {
    ConsTail(x, rest);
  }

  lemma {:induction false} TwoTokens(u: unit16, w: unit16, rest: seq<Token>)
    requires IsHigh(u)
    ensures Meaning([Unit(u), Unit(w)] + rest)
         == (if IsLow(w) then Utf8(OredPair(u, w)) else []) + Meaning(rest)
  {
    var ts := [Unit(u), Unit(w)] + rest;
    assert ts[0] == Unit(u) && ts[1] == Unit(w) && ts[2..] == rest;
  }

  lemma {:induction false} TokensBegin(gs: seq<Group>)
    requires AreGroups(gs) && gs != [] && gs[0].Self?
    ensures TokensOf(gs) != [] && TokensOf(gs)[0].Raw?
  {}

  /** The parser stores what the groups stand for, whether or not the units denote anything in UTF-16. */
  lemma {:induction false} MeaningOfGroups(gs: seq<Group>)
    requires AreGroups(gs)
    ensures Meaning(TokensOf(gs)) == BytesOf(gs)
    decreases |gs|
  {
    if gs == [] {
    } else {
      var g, rest := gs[0], TokensOf(gs[1..]);
      MeaningOfGroups(gs[1..]);
      if HighAlone(g) && |gs| > 1 {
        TokensBegin(gs[1..]);
      }
      NothingBefore(BytesOf(gs[1..]));
      hide Meaning;
      OneToken(GroupTokens(g)[0], rest);
      if |GroupTokens(g)| == 2 {
        TwoTokens(GroupTokens(g)[0].u, GroupTokens(g)[1].u, rest);
      }
    }
  }

  /** And every run of bytes and units is made of such groups. */
  lemma {:induction false} GroupsOf(ts: seq<Token>) returns (gs: seq<Group>)
    ensures AreGroups(gs) && TokensOf(gs) == ts
    decreases |ts|
  {
    if ts == [] {
      gs := [];
    } else if ts[0].Unit? && IsHigh(ts[0].u) && |ts| > 1 && ts[1].Unit? {
      var rest := GroupsOf(ts[2..]);
      var g := if IsLow(ts[1].u) then Surrogates(ts[0].u, ts[1].u) else Lost([ts[0].u, ts[1].u]);
      gs := [g] + rest;
      ConsTail(g, rest);
      assert ts == GroupTokens(g) + ts[2..];
    } else {
      var rest := GroupsOf(ts[1..]);
      var g := match ts[0]
        case Raw(c) => Self(c)
        case Unit(u) => if u == 0 || IsHigh(u) || IsLow(u) then Lost([u]) else Character(u);
      gs := [g] + rest;
      ConsTail(g, rest);
      HeadTail(ts);
      if HighAlone(g) && rest != [] {
        GroupsBegin(rest);
      }
    }
  }

  /** Only bytes that stand for themselves are not units. */
  lemma {:induction false} GroupsBegin(gs: seq<Group>)
    requires AreGroups(gs) && gs != [] && TokensOf(gs)[0].Raw?
    ensures gs[0].Self?
  {}

  /** The bytes of the literal body at p. */
  function Decode(s: bytes, p: nat): bytes
    requires Inside(s, p)
  {
    Meaning(Tokens(s, p))
  }

  // ---------- writing ----------

  predicate NulFree(str: bytes) {
    forall i :: 0 <= i < |str| ==> str[i] != NUL
  }

  /** What a reader is left with when the NUL bytes vanish. */
  function DropNul(str: bytes): (t: bytes)
    ensures t == str <==> NulFree(str)
    ensures |t| <= |str|
  {
    if str == [] then []
    else
      assert str == [str[0]] + str[1..];
      if str[0] == NUL then DropNul(str[1..]) else [str[0]] + DropNul(str[1..])
  }

  /** e is one of the ways of writing c inside a literal. */
  predicate Spells(e: bytes, c: byte) {
    || (e == [c] && c != QUOTE && c != BACKSLASH && c != NUL)
    || (|e| == 2 && e[0] == BACKSLASH && e[1] != LOWER_U && e[1] != NUL && Unescape(e[1]) == c)
    || (|e| == 6 && e[0] == BACKSLASH && e[1] == LOWER_U && Hex4At(e, 2) && Hex4(e, 2) == c && c < 0x80)
  }

  /** A literal body written byte by byte with the escapes of one of the two encoders. */
  function EscapeWith(esc: byte -> bytes, str: bytes): bytes {
    if str == [] then [] else esc(str[0]) + EscapeWith(esc, str[1..])
  }

  lemma {:induction false} EscapeWithAppend(esc: byte -> bytes, a: bytes, c: byte)
    ensures EscapeWith(esc, a + [c]) == EscapeWith(esc, a) + esc(c)
  {
    if a == [] {
      assert (a + [c])[1..] == [];
    } else {
      EscapeWithAppend(esc, a[1..], c);
      assert (a + [c])[1..] == a[1..] + [c];
    }
  }

  lemma {:induction false} EscapeWithTame(esc: byte -> bytes, str: bytes)
    requires forall c :: Spells(esc(c), c)
    ensures Tame(EscapeWith(esc, str))
  {
    if str == [] {
    } else {
      EscapeWithTame(esc, str[1..]);
      SpellingTame(esc(str[0]), str[0]);
      TameConcat(esc(str[0]), EscapeWith(esc, str[1..]));
    }
  }

  lemma {:induction false} SpellingTame(e: bytes, c: byte)
    requires Spells(e, c)
    ensures Tame(e)
  {
    if |e| == 6 {
      TamePlain(e[2..]);
    }
  }

  lemma {:induction false} BodyEndHex4(s: bytes, p: nat)
    requires Hex4At(s, p) && Inside(s, p) && Inside(s, p + 4)
    ensures BodyEnd(s, p) == BodyEnd(s, p + 4)
    ensures Measure(s, p) == 4 + Measure(s, p + 4)
  {
    assert BodyEnd(s, p + 2) == BodyEnd(s, p + 3) == BodyEnd(s, p + 4);
    assert Measure(s, p + 2) == 1 + Measure(s, p + 3) == 2 + Measure(s, p + 4);
  }

  /** What a spelling of c leaves of it. */
  function Kept(c: byte): bytes {
    if c == NUL then [] else [c]
  }

  /** The reader takes the piece from p to q for one token, of which it keeps c. */
  predicate ReadsAs(s: bytes, p: nat, q: nat, c: byte) {
    && Inside(s, p) && Inside(s, q)
    && BodyEnd(s, p) == BodyEnd(s, q) && Decode(s, p) == Kept(c) + Decode(s, q)
  }

  lemma {:induction false} MeaningOfByte(c: byte, rest: seq<Token>)
    ensures Meaning([Raw(c)] + rest) == [c] + Meaning(rest)
    ensures c < 0x80 ==> Meaning([Unit(c)] + rest) == Kept(c) + Meaning(rest)
  {
    ConsTail(Raw(c), rest);
    ConsTail(Unit(c), rest);
    NothingBefore(Meaning(rest));
  }

  lemma {:induction false} ShortReads(s: bytes, p: nat, c: byte)
    requires Inside(s, p) && s[p] != QUOTE && s[p] != NUL
    ensures s[p] != BACKSLASH ==> ReadsAs(s, p, p + 1, s[p])
    ensures s[p] == BACKSLASH && s[p + 1] != LOWER_U && Unescape(s[p + 1]) == c && c != NUL ==> ReadsAs(s, p, p + 2, c)
  {
    hide Meaning;
    if s[p] != BACKSLASH {
      MeaningOfByte(s[p], Tokens(s, p + 1));
    } else if s[p + 1] != LOWER_U {
      MeaningOfByte(Unescape(s[p + 1]), Tokens(s, p + 2));
    }
  }

  lemma {:induction false} UnitReads(s: bytes, p: nat, c: byte)
    requires Inside(s, p) && s[p] == BACKSLASH && Peek(s, p + 1) == LOWER_U
    requires Hex4At(s, p + 2) && Hex4(s, p + 2) == c && c < 0x80
    ensures ReadsAs(s, p, p + 6, c)
  {
    hide Hex4At, Hex4, Meaning;
    InsideHex4(s, p + 2);
    BodyEndHex4(s, p + 2);
    MeaningOfByte(c, Tokens(s, p + 6));
  }

  lemma {:induction false} SpellingReads(e: bytes, c: byte, s: bytes, p: nat)
    requires Spells(e, c) && At(s, p, e) && Inside(s, p)
    ensures ReadsAs(s, p, p + |e|, c)
  {
    hide ReadsAs, Inside;
    AtIs(s, p, e);
    var t := s[p..p + |e|];
    assert s[p] == t[0];
    if |e| == 1 {
      ShortReads(s, p, c);
    } else if |e| == 2 {
      assert s[p + 1] == t[1];
      ShortReads(s, p, c);
    } else {
      assert s[p + 1] == t[1] && s[p + 2] == t[2] && s[p + 3] == t[3] && s[p + 4] == t[4] && s[p + 5] == t[5];
      UnitReads(s, p, c);
    }
  }

  /** Whatever the encoder, the literal reads back as the string without its NUL bytes, and the
      reader stops at the quote that closes it. */
  lemma {:induction false} BodyReadsBack(esc: byte -> bytes, str: bytes, s: bytes, p: nat)
    requires forall c :: Spells(esc(c), c)
    requires At(s, p, EscapeWith(esc, str)) && Peek(s, p + |EscapeWith(esc, str)|) == QUOTE
    requires Inside(s, p)
    ensures BodyEnd(s, p) == p + |EscapeWith(esc, str)|
    ensures Decode(s, p) == DropNul(str)
    decreases |str|
  {
    hide At, Spells;
    if str == [] {
    } else {
      var e, rest := esc(str[0]), EscapeWith(esc, str[1..]);
      AtSplit(s, p, e, rest);
      SpellingReads(e, str[0], s, p);
      BodyReadsBack(esc, str[1..], s, p + |e|);
    }
  }

  /** print_string_ptr's escape of one byte. */
  function EscapeByte(c: byte): (e: bytes)
    ensures 1 <= |e| <= 6
  {
    if c > 31 && c != QUOTE && c != BACKSLASH then [c]
    else if c == BACKSLASH || c == QUOTE then [BACKSLASH, c]
    else if c == BACKSPACE then [BACKSLASH, LOWER_B]
    else if c == FORMFEED then [BACKSLASH, LOWER_F]
    else if c == LINEFEED then [BACKSLASH, LOWER_N]
    else if c == RETURN then [BACKSLASH, LOWER_R]
    else if c == TAB then [BACKSLASH, LOWER_T]
    else [BACKSLASH, LOWER_U, ZERO, ZERO, HexDigit(c / 16), HexDigit(c % 16)]
  }

  lemma {:induction false} EscapeByteSpells(c: byte)
    ensures Spells(EscapeByte(c), c)
  {
    var e := EscapeByte(c);
    if |e| == 6 {
      assert Hex4(e, 2) == HexValue(e[4]) * 16 + HexValue(e[5]);
    }
  }

  /** Section 2.5 of RFC 4627: a byte stands for itself unless it is a control character, a quote or a
      backslash; quotes, slashes and backslashes have an escape of two characters, the characters with a
      letter too, and all up to 0x7F one of six. */
  predicate Conforms(e: bytes, c: byte) {
    || (e == [c] && c >= 0x20 && c != QUOTE && c != BACKSLASH)
    || (e == [BACKSLASH, c] && (c == QUOTE || c == BACKSLASH || c == 0x2F))
    || (|e| == 2 && e[0] == BACKSLASH && e[1] in LETTERS && LETTERS[e[1]] == c)
    || (|e| == 6 && e[0] == BACKSLASH && e[1] == LOWER_U && Hex4At(e, 2) && Hex4(e, 2) == c && c < 0x80)
  }

  /** Of the escapes that the standard has for c, none is shorter. */
  ghost predicate Shortest(e: bytes, c: byte) {
    Conforms(e, c) && forall e' :: Conforms(e', c) ==> |e| <= |e'|
  }

  lemma {:induction false} EscapeByteShortest(c: byte)
    ensures Shortest(EscapeByte(c), c)
  {
    var e := EscapeByte(c);
    if |e| == 6 {
      assert Hex4(e, 2) == HexValue(e[4]) * 16 + HexValue(e[5]);
      NoLetter(c);
    }
  }

  /** The control characters without a letter. */
  lemma {:induction false} NoLetter(c: byte)
    requires c !in {0x08, 0x09, 0x0A, 0x0C, 0x0D}
    ensures forall x :: x in LETTERS ==> LETTERS[x] != c
  {}

  function Escape(str: bytes): bytes {
    EscapeWith(EscapeByte, str)
  }

  /** A string as an encoder writes it. */
  function Quoted(esc: byte -> bytes, str: bytes): (t: bytes)
    ensures t != [] && t[0] == QUOTE
  {
    [QUOTE] + EscapeWith(esc, str) + [QUOTE]
  }

  /** A string as print_string_ptr writes it, without the terminator. */
  function Quote(str: bytes): bytes {
    Quoted(EscapeByte, str)
  }

  lemma {:induction false} EscapeByteAlwaysSpells()
    ensures forall c :: Spells(EscapeByte(c), c)
  {
    forall c ensures Spells(EscapeByte(c), c) {
      EscapeByteSpells(c);
    }
  }

  lemma {:induction false} QuotedTame(esc: byte -> bytes, str: bytes)
    requires forall c :: Spells(esc(c), c)
    ensures Tame(Quoted(esc, str))
  {
    EscapeWithTame(esc, str);
    TamePlain([QUOTE]);
    TameConcat([QUOTE], EscapeWith(esc, str));
    TameConcat([QUOTE] + EscapeWith(esc, str), [QUOTE]);
  }

  lemma {:induction false} QuoteTame(str: bytes)
    ensures Tame(Quote(str))
  {
    EscapeByteAlwaysSpells();
    QuotedTame(EscapeByte, str);
  }
}
