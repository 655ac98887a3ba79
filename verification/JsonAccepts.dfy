/** Whatever the parser takes is one of the texts of JsonSyntax, so that it accepts exactly these. */
module JsonAccepts {
  import opened Bytes
  import opened CText
  import opened Seqs
  import opened JsonString
  import opened JsonNumber
  import opened NumberSyntax
  import opened JsonDouble
  import opened JsonTree
  import opened JsonParse
  import opened JsonRoundTrip
  import opened JsonSyntax

  lemma {:induction false} SkipStands(s: bytes, p: nat)
    requires p <= |s|
    ensures Skip(s, p) <= |s| && Blank(s[p..Skip(s, p)]) && At(s, p, s[p..Skip(s, p)])
    decreases |s| - p
  {
    var q := Skip(s, p);
    if NUL < Peek(s, p) <= SPACE {
      SkipStands(s, p + 1);
      assert s[p..q] == [s[p]] + s[p + 1..q];
      ConsTail(s[p], s[p + 1..q]);
    } else {
      assert s[p..p] == [];
    }
  }

  /** The literal at p is closed by a quote. */
  predicate Closed(s: bytes, p: nat)
    requires Outside(s, p)
  {
    Peek(s, p) == QUOTE ==> Peek(s, BodyEnd(s, p + 1)) == QUOTE
  }

  lemma {:induction false} QuotedStands(s: bytes, p: nat) returns (xs: seq<Piece>)
    requires Outside(s, p) && Peek(s, p) == QUOTE
    ensures ArePieces(xs) && At(s, p, [QUOTE] + BodyText(xs)) && BodyEnd(s, p + 1) == p + 1 + |BodyText(xs)|
    ensures ParseString(s, p).Ok? && ParseString(s, p).value == Meaning(BodyTokens(xs))
  {
    xs := BodyStands(s, p + 1);
    BodyReads(xs, s, p + 1);
    AtOne(s, p);
    AtJoin(s, p, [QUOTE], BodyText(xs));
    hide At, ArePieces, BodyText, BodyTokens, BodyEnd, Meaning;
  }

  lemma {:induction false} LiteralStands(s: bytes, p: nat) returns (xs: seq<Piece>)
    requires Outside(s, p) && Peek(s, p) == QUOTE && Closed(s, p)
    ensures ArePieces(xs) && At(s, p, LiteralText(xs))
    ensures ParseString(s, p) == Ok(Meaning(BodyTokens(xs)), p + |LiteralText(xs)|)
  {
    hide At, ArePieces, BodyText, BodyTokens, BodyEnd, Meaning;
    xs := QuotedStands(s, p);
    var e := BodyEnd(s, p + 1);
    AtOne(s, e);
    AtJoin(s, p, [QUOTE] + BodyText(xs), [QUOTE]);
    Assoc([QUOTE], BodyText(xs), [QUOTE]);
  }

  lemma {:induction false} LongestTaken(s: bytes, p: nat)
    requires p <= |s|
    ensures Longest(s, p, ReadNumber(s, p).next)
  {
    forall n: Loose | IsNumber(n) && At(s, p, LooseText(n))
      ensures p + |LooseText(n)| <= ReadNumber(s, p).next
    {
      LooseLongest(n, s, p);
    }
  }

  /** The text d stands at p, and it is what the parser takes there. */
  ghost predicate Stands(d: Doc, s: bytes, p: nat)
    requires Outside(s, p)
  {
    var r := ParseValue(s, p);
    IsDoc(d) && r.Ok? && StandsUpTo(d, s, p, r.next) && ValueOf(d) == r.value
  }

  lemma {:induction false} NumberIs(n: Loose, s: bytes, p: nat)
    requires Outside(s, p) && IsNumber(n) && At(s, p, LooseText(n)) && Longest(s, p, p + |LooseText(n)|)
    requires ParseValue(s, p) == Ok(Num(DoubleOf(LooseDecimal(n))), p + |LooseText(n)|)
    ensures Stands(Number(n), s, p)
  {
    hide At, IsNumber, LooseText, LooseDecimal, DoubleOf, Longest, Outside, ParseValue;
  }

  lemma {:induction false} NumberStands(s: bytes, p: nat)
    requires Outside(s, p) && (Peek(s, p) == MINUS || IsDigit(Peek(s, p)))
    ensures p <= |s| && Stands(Number(Taken(s, p)), s, p)
  {
    hide At, IsNumber, LooseText, LooseDecimal, Taken, ReadNumber, DoubleOf, Longest, Outside, ParseValue, Stands;
    var n := Taken(s, p);
    TakenStands(s, p);
    LongestTaken(s, p);
    NumberParses(s, p);
    NumberIs(n, s, p);
  }

  lemma {:induction false} StringStands(s: bytes, p: nat) returns (d: Doc)
    requires Outside(s, p) && Peek(s, p) == QUOTE && Closed(s, p)
    ensures Stands(d, s, p)
  {
    hide At, Outside, ParseString, ParseValue, Meaning, Closed;
    var xs := LiteralStands(s, p);
    StringParses(s, p);
    d := Literal(xs);
  }

  /** What parse_value does at each first character that can start a value. */
  lemma {:induction false} WordStands(v: Json, s: bytes, p: nat)
    requires Outside(s, p) && (v.Null? || v.Bool?) && At(s, p, WordText(v))
    ensures Stands(Word(v), s, p)
  {
    WordReads(v, s, p);
  }

  /** The first character says what kind of value is read. */
  predicate Begins(s: bytes, p: nat) {
    || At(s, p, WordText(Null)) || At(s, p, WordText(Bool(true))) || At(s, p, WordText(Bool(false)))
    || Peek(s, p) == QUOTE || Peek(s, p) == MINUS || IsDigit(Peek(s, p))
    || Peek(s, p) == LBRACKET || Peek(s, p) == LBRACE
  }

  lemma {:induction false} ParsedBegins(s: bytes, p: nat)
    requires Outside(s, p) && ParseValue(s, p).Ok?
    ensures Begins(s, p)
  {
    hide At, Outside, ParseString, ParseArray, ParseObject, ReadNumber, DoubleAt;
    assert WordText(Null) == NULL_TEXT && WordText(Bool(true)) == TRUE_TEXT && WordText(Bool(false)) == FALSE_TEXT;
  }

  lemma {:induction false} EmptyStands(s: bytes, p: nat, open: byte, close: byte) returns (inner: bytes)
    requires Outside(s, p) && Peek(s, p) == open && open != QUOTE && open != NUL
    requires close > SPACE && Peek(s, Skip(s, p + 1)) == close
    ensures Blank(inner) && At(s, p, [open] + (inner + [close])) && p + 2 + |inner| == Skip(s, p + 1) + 1
  {
    var q := Skip(s, p + 1);
    hide At, Skip, Blank;
    inner := s[p + 1..q];
    OutsideStep(s, p);
    SkipStands(s, p + 1);
    AtOne(s, q);
    AtJoin(s, p + 1, inner, [close]);
    AtOne(s, p);
    AtJoin(s, p, [open], inner + [close]);
  }

  /** A literal without its quote ends at the terminator, which ends nothing else. */
  lemma {:induction false} ClosedWhen(s: bytes, p: nat)
    requires Outside(s, p) && ParseValue(s, p).Ok? && Peek(s, Skip(s, ParseValue(s, p).next)) != NUL
    ensures Closed(s, p)
  {
    if Peek(s, p) == QUOTE {
      StringParses(s, p);
    }
  }

  /** The parsed item with its blanks. */
  ghost predicate ItemStood(i: Item, s: bytes, p: nat)
    requires Outside(s, p)
  {
    var r := ParseItem(s, p);
    IsItem(i) && r.Ok? && At(s, p, ItemText(i)) && p + |ItemText(i)| == Skip(s, r.next) && ItemValue(i) == r.value
  }

  lemma {:induction false} ItemJoins(d: Doc, s: bytes, p: nat, q: nat, e: nat) returns (i: Item)
    requires Outside(s, p) && q == Skip(s, p) && Outside(s, q) && Stands(d, s, q) && e == ParseValue(s, q).next
    ensures ItemStood(i, s, p)
  {
    hide At, Skip, Blank, IsDoc, DocText, ParseValue, Longest, ValueOf;
    var k := Skip(s, e);
    i := Item(s[p..q], d, s[e..k]);
    SkipStands(s, p);
    SkipStands(s, e);
    AtJoin(s, q, DocText(d), s[e..k]);
    AtJoin(s, p, s[p..q], DocText(d) + s[e..k]);
  }

  /** A closed value is a text of JSON. */
  lemma {:induction false} ValueStands(s: bytes, p: nat) returns (d: Doc)
    requires Outside(s, p) && ParseValue(s, p).Ok? && Closed(s, p)
    ensures Stands(d, s, p)
    decreases |s| - p, 1
  {
    hide At, Outside, ParseValue, ParseString, Skip, Stands, IsDigit, Closed, WordText;
    ParsedBegins(s, p);
    if Peek(s, p) == QUOTE {
      d := StringStands(s, p);
    } else if Peek(s, p) == MINUS || IsDigit(Peek(s, p)) {
      NumberStands(s, p);
      d := Number(Taken(s, p));
    } else if Peek(s, p) == LBRACKET {
      d := ArrayStands(s, p);
    } else if Peek(s, p) == LBRACE {
      d := ObjectStands(s, p);
    } else {
      var v: Json :| (v.Null? || v.Bool?) && At(s, p, WordText(v));
      d := Word(v);
      WordStands(v, s, p);
    }
  }

  lemma {:induction false} ItemStands(s: bytes, p: nat) returns (i: Item)
    requires Outside(s, p) && ParseItem(s, p).Ok? && Ends(Peek(s, Skip(s, ParseItem(s, p).next)))
    ensures ItemStood(i, s, p)
    decreases |s| - p, 2
  {
    hide At, Outside, ParseValue, Skip, Stands, Closed, ItemStood;
    var q := Skip(s, p);
    SkipOutside(s, p);
    ClosedWhen(s, q);
    var d := ValueStands(s, q);
    i := ItemJoins(d, s, p, q, ParseValue(s, q).next);
  }

  /** parse_array behind a value: a comma and more, the end, or neither. */
  lemma {:induction false} ItemsGive(s: bytes, p: nat)
    requires Outside(s, p)
    ensures var v, r := ParseItem(s, p), ParseItems(s, p);
      if v.Fail? then r == Fail(v.at) else
        var q := Skip(s, v.next);
        if Peek(s, q) == COMMA then
          && Outside(s, q + 1)
          && r == (var rest := ParseItems(s, q + 1); if rest.Ok? then Ok([v.value] + rest.value, rest.next) else rest)
        else if Peek(s, q) == RBRACKET then r == Ok([v.value], q + 1)
        else r == Fail(q)
  {
    hide ParseItem;
  }

  ghost predicate ItemsStood(items: seq<Item>, s: bytes, p: nat)
    requires Outside(s, p)
  {
    && items != [] && AreItems(items) && At(s, p, ItemsText(items) + [RBRACKET])
    && ParseItems(s, p) == Ok(ValuesOf(items), p + |ItemsText(items)| + 1)
  }

  lemma {:induction false} LastItemStands(i: Item, s: bytes, p: nat)
    requires Outside(s, p) && ItemStood(i, s, p)
    requires var q := p + |ItemText(i)|; Peek(s, q) == RBRACKET && ParseItems(s, p) == Ok([ItemValue(i)], q + 1)
    ensures ItemsStood([i], s, p)
  {
    hide At, Outside, ParseItem, ParseItems, Skip, ItemText, IsItem, ItemValue;
    var q := p + |ItemText(i)|;
    AtOne(s, q);
    AtJoin(s, p, ItemText(i), [RBRACKET]);
    assert [i][1..] == [];
    ItemsParts([i]);
  }

  lemma {:induction false} NextItemStands(i: Item, rest: seq<Item>, s: bytes, p: nat, q: nat)
    requires Outside(s, p) && ItemStood(i, s, p) && q == p + |ItemText(i)|
    requires Peek(s, q) == COMMA && Outside(s, q + 1) && ItemsStood(rest, s, q + 1)
    requires ParseItems(s, p) == Ok([ItemValue(i)] + ParseItems(s, q + 1).value, ParseItems(s, q + 1).next)
    ensures ItemsStood([i] + rest, s, p)
  {
    hide At, Outside, ParseItem, ParseItems, Skip, ItemText, IsItem, ItemValue;
    var t, u := ItemText(i), ItemsText(rest);
    ConsTail(i, rest);
    AtOne(s, q);
    AtJoin(s, q, [COMMA], u + [RBRACKET]);
    AtJoin(s, p, t, [COMMA] + (u + [RBRACKET]));
    Assoc(t, [COMMA] + u, [RBRACKET]);
    Assoc([COMMA], u, [RBRACKET]);
  }

  lemma {:induction false} ItemsStand(s: bytes, p: nat) returns (items: seq<Item>)
    requires Outside(s, p) && ParseItems(s, p).Ok?
    ensures ItemsStood(items, s, p)
    decreases |s| - p, 3
  {
    hide At, Outside, ParseItem, ParseItems, Skip, ItemText, IsItem, ItemValue, ItemsStood;
    ItemsGive(s, p);
    var v := ParseItem(s, p);
    var q := Skip(s, v.next);
    var i := ItemStands(s, p);
    if Peek(s, q) == COMMA {
      var rest := ItemsStand(s, q + 1);
      items := [i] + rest;
      NextItemStands(i, rest, s, p, q);
    } else {
      items := [i];
      LastItemStands(i, s, p);
    }
  }

  /** What parse_value does at an opening bracket. */
  lemma {:induction false} ArrayGives(s: bytes, p: nat)
    requires Outside(s, p) && Peek(s, p) == LBRACKET
    ensures Outside(s, p + 1)
    ensures ParseValue(s, p) == if Peek(s, Skip(s, p + 1)) == RBRACKET then Ok(Arr([]), Skip(s, p + 1) + 1) else
      var r := ParseItems(s, p + 1); if r.Ok? then Ok(Arr(r.value), r.next) else Fail(r.at)
  {
    NotLiteral(s, p);
    hide At, Skip, ParseItems, ParseObject;
    ItemsSkip(s, p + 1);
  }

  lemma {:induction false} ArrayStands(s: bytes, p: nat) returns (d: Doc)
    requires Outside(s, p) && Peek(s, p) == LBRACKET && ParseValue(s, p).Ok?
    ensures Stands(d, s, p)
    decreases |s| - p, 0
  {
    hide At, Outside, ParseItems, ParseValue, Skip, AreItems, ItemsText, Blank, Longest;
    ArrayGives(s, p);
    if Peek(s, Skip(s, p + 1)) == RBRACKET {
      var inner := EmptyStands(s, p, LBRACKET, RBRACKET);
      d := Items(inner, []);
      EmptyDoc(inner);
    } else {
      var items := ItemsStand(s, p + 1);
      d := Items([], items);
      AtOne(s, p);
      AtJoin(s, p, [LBRACKET], ItemsText(items) + [RBRACKET]);
      FullDoc(items);
    }
  }

  lemma {:induction false} EmptyDoc(inner: bytes)
    requires Blank(inner)
    ensures IsDoc(Items(inner, [])) && ValueOf(Items(inner, [])) == Arr([])
    ensures IsDoc(Pairs(inner, [])) && ValueOf(Pairs(inner, [])) == Obj([])
  {}

  lemma {:induction false} FullDoc(items: seq<Item>)
    requires AreItems(items)
    ensures IsDoc(Items([], items)) && ValueOf(Items([], items)) == Arr(ValuesOf(items))
  {}

  /** A member: a name, a colon and a value. */
  lemma {:induction false} MemberGives(s: bytes, p: nat)
    requires Outside(s, p)
    ensures Outside(s, Skip(s, p))
    ensures var k, r := ParseString(s, Skip(s, p)), ParseMember(s, p);
      if k.Fail? then r == Fail(k.at) else
        var c := Skip(s, k.next);
        if Peek(s, c) != COLON then r == Fail(c) else
          && Outside(s, c + 1)
          && var v := ParseItem(s, c + 1);
             r == if v.Ok? then Ok(Member(Named(k.value), v.value), v.next) else Fail(v.at)
  {
    hide ParseItem;
  }

  lemma {:induction false} NameClosed(s: bytes, q: nat)
    requires Outside(s, q) && Peek(s, q) == QUOTE && Peek(s, Skip(s, ParseString(s, q).next)) != NUL
    ensures Closed(s, q)
  {}

  ghost predicate PairStood(m: Pair, s: bytes, p: nat)
    requires Outside(s, p)
  {
    var r := ParseMember(s, p);
    IsPair(m) && r.Ok? && At(s, p, PairText(m)) && p + |PairText(m)| == Skip(s, r.next) && MemberOf(m) == r.value
  }

  lemma {:induction false} PairTextStands(m: Pair, s: bytes, p: nat, q: nat, e: nat, c: nat)
    requires q == p + |m.before| && e == q + |LiteralText(m.name)| && c == e + |m.behind|
    requires At(s, p, m.before) && At(s, q, LiteralText(m.name)) && At(s, e, m.behind) && At(s, c, [COLON])
    requires At(s, c + 1, ItemText(m.item))
    ensures At(s, p, PairText(m)) && p + |PairText(m)| == c + 1 + |ItemText(m.item)|
  {
    hide At, ItemText, LiteralText;
    var u := [COLON] + ItemText(m.item);
    AtJoin(s, c, [COLON], ItemText(m.item));
    AtJoin(s, e, m.behind, u);
    AtJoin(s, q, LiteralText(m.name), m.behind + u);
    AtJoin(s, p, m.before, LiteralText(m.name) + (m.behind + u));
  }

  lemma {:induction false} PairStands(s: bytes, p: nat) returns (m: Pair)
    requires Outside(s, p) && ParseMember(s, p).Ok? && Ends(Peek(s, Skip(s, ParseMember(s, p).next)))
    ensures PairStood(m, s, p)
    decreases |s| - p, 2
  {
    hide At, Outside, ParseItem, ParseMember, ParseString, Skip, ItemText, IsItem, Blank, LiteralText, ArePieces;
    hide PairText, ItemValue, BodyTokens, Meaning, Closed;
    MemberGives(s, p);
    var q := Skip(s, p);
    var e := ParseString(s, q).next;
    var c := Skip(s, e);
    NameClosed(s, q);
    var xs := LiteralStands(s, q);
    var i := ItemStands(s, c + 1);
    m := Pair(s[p..q], xs, s[e..c], i);
    SkipStands(s, p);
    SkipStands(s, e);
    AtOne(s, c);
    PairTextStands(m, s, p, q, e, c);
  }

  /** parse_object behind a member: a comma and more, the end, or neither. */
  lemma {:induction false} MembersGive(s: bytes, p: nat)
    requires Outside(s, p)
    ensures var m, r := ParseMember(s, p), ParseMembers(s, p);
      if m.Fail? then r == Fail(m.at) else
        var q := Skip(s, m.next);
        if Peek(s, q) == COMMA then
          && Outside(s, q + 1)
          && r == (var rest := ParseMembers(s, q + 1); if rest.Ok? then Ok([m.value] + rest.value, rest.next) else rest)
        else if Peek(s, q) == RBRACE then r == Ok([m.value], q + 1)
        else r == Fail(q)
  {
    hide ParseMember;
  }

  ghost predicate PairsStood(pairs: seq<Pair>, s: bytes, p: nat)
    requires Outside(s, p)
  {
    && pairs != [] && ArePairs(pairs) && At(s, p, PairsText(pairs) + [RBRACE])
    && ParseMembers(s, p) == Ok(MembersOf(pairs), p + |PairsText(pairs)| + 1)
  }

  lemma {:induction false} LastPairStands(m: Pair, s: bytes, p: nat)
    requires Outside(s, p) && PairStood(m, s, p)
    requires var q := p + |PairText(m)|; Peek(s, q) == RBRACE && ParseMembers(s, p) == Ok([MemberOf(m)], q + 1)
    ensures PairsStood([m], s, p)
  {
    hide At, Outside, ParseMember, ParseMembers, Skip, PairText, IsPair, MemberOf;
    var q := p + |PairText(m)|;
    AtOne(s, q);
    AtJoin(s, p, PairText(m), [RBRACE]);
    assert [m][1..] == [];
    PairsParts([m]);
  }

  lemma {:induction false} NextPairStands(m: Pair, rest: seq<Pair>, s: bytes, p: nat, q: nat)
    requires Outside(s, p) && PairStood(m, s, p) && q == p + |PairText(m)|
    requires Peek(s, q) == COMMA && Outside(s, q + 1) && PairsStood(rest, s, q + 1)
    requires ParseMembers(s, p) == Ok([MemberOf(m)] + ParseMembers(s, q + 1).value, ParseMembers(s, q + 1).next)
    ensures PairsStood([m] + rest, s, p)
  {
    hide At, Outside, ParseMember, ParseMembers, Skip, PairText, IsPair, MemberOf;
    var t, u := PairText(m), PairsText(rest);
    ConsTail(m, rest);
    AtOne(s, q);
    AtJoin(s, q, [COMMA], u + [RBRACE]);
    AtJoin(s, p, t, [COMMA] + (u + [RBRACE]));
    Assoc(t, [COMMA] + u, [RBRACE]);
    Assoc([COMMA], u, [RBRACE]);
  }

  lemma {:induction false} PairsStand(s: bytes, p: nat) returns (pairs: seq<Pair>)
    requires Outside(s, p) && ParseMembers(s, p).Ok?
    ensures PairsStood(pairs, s, p)
    decreases |s| - p, 3
  {
    hide At, Outside, ParseMember, ParseMembers, Skip, PairText, IsPair, MemberOf, PairsStood;
    MembersGive(s, p);
    var r := ParseMember(s, p);
    var q := Skip(s, r.next);
    var m := PairStands(s, p);
    if Peek(s, q) == COMMA {
      var rest := PairsStand(s, q + 1);
      pairs := [m] + rest;
      NextPairStands(m, rest, s, p, q);
    } else {
      pairs := [m];
      LastPairStands(m, s, p);
    }
  }

  /** What parse_value does at an opening brace. */
  lemma {:induction false} ObjectGives(s: bytes, p: nat)
    requires Outside(s, p) && Peek(s, p) == LBRACE
    ensures Outside(s, p + 1)
    ensures ParseValue(s, p) == if Peek(s, Skip(s, p + 1)) == RBRACE then Ok(Obj([]), Skip(s, p + 1) + 1) else
      var r := ParseMembers(s, p + 1); if r.Ok? then Ok(Obj(r.value), r.next) else Fail(r.at)
  {
    hide At, Skip, ParseMembers, ParseArray, ParseObject, ParseValue, Outside;
    NotLiteral(s, p);
    OutsideStep(s, p);
    EmptyContainer(s, p);
    if Peek(s, Skip(s, p + 1)) != RBRACE {
      ObjectParses(s, p);
      MembersSkip(s, p + 1);
    }
  }

  lemma {:induction false} ObjectStands(s: bytes, p: nat) returns (d: Doc)
    requires Outside(s, p) && Peek(s, p) == LBRACE && ParseValue(s, p).Ok?
    ensures Stands(d, s, p)
    decreases |s| - p, 0
  {
    hide At, Outside, ParseMembers, ParseValue, Skip, ArePairs, PairsText, Blank, Longest;
    ObjectGives(s, p);
    if Peek(s, Skip(s, p + 1)) == RBRACE {
      var inner := EmptyStands(s, p, LBRACE, RBRACE);
      d := Pairs(inner, []);
      EmptyDoc(inner);
    } else {
      var pairs := PairsStand(s, p + 1);
      d := Pairs([], pairs);
      AtOne(s, p);
      AtJoin(s, p, [LBRACE], PairsText(pairs) + [RBRACE]);
      FullObject(pairs);
    }
  }

  lemma {:induction false} FullObject(pairs: seq<Pair>)
    requires ArePairs(pairs)
    ensures IsDoc(Pairs([], pairs)) && ValueOf(Pairs([], pairs)) == Obj(MembersOf(pairs))
  {}

  // ---------- acceptance ----------

  lemma {:induction false} UnclosedReads(xs: seq<Piece>, s: bytes, p: nat, e: nat)
    requires Outside(s, p) && ArePieces(xs) && Unclosed(xs, s, p, e)
    ensures ParseValue(s, p) == Ok(Str(Meaning(BodyTokens(xs))), e)
  {
    hide At, ArePieces, BodyText, BodyTokens, Meaning, Outside, ParseString, ParseValue;
    QuotedReads(xs, s, p);
    AtFirst(s, p, [QUOTE] + BodyText(xs));
    StringParses(s, p);
  }

  lemma {:induction false} UnclosedStands(s: bytes, p: nat)
    requires Outside(s, p) && Peek(s, p) == QUOTE && !Closed(s, p)
    ensures ParseValue(s, p).Ok? && Accepts(s, p, ParseValue(s, p).value, ParseValue(s, p).next)
  {
    hide At, ArePieces, BodyText, BodyTokens, Meaning, ParseValue;
    var xs := QuotedStands(s, p);
    StringParses(s, p);
    assert Unclosed(xs, s, p, ParseValue(s, p).next);
  }

  /** The parser takes v from p up to e exactly when a text of v stands there that it accepts. */
  lemma {:induction false} ValueParses(s: bytes, p: nat, v: Json, e: nat)
    requires Outside(s, p)
    ensures ParseValue(s, p) == Ok(v, e) <==> Accepts(s, p, v, e)
  {
    hide At, ArePieces, BodyText, BodyTokens, Meaning, ParseValue, IsDoc, ValueOf, DocText, Longest, Outside, Unclosed;
    if Accepts(s, p, v, e) {
      if d :| IsDoc(d) && StandsUpTo(d, s, p, e) && ValueOf(d) == v {
        DocReads(d, s, p);
      } else {
        var xs :| ArePieces(xs) && Unclosed(xs, s, p, e) && Str(Meaning(BodyTokens(xs))) == v;
        UnclosedReads(xs, s, p, e);
      }
    }
    if ParseValue(s, p) == Ok(v, e) {
      if Closed(s, p) {
        var d := ValueStands(s, p);
      } else {
        UnclosedStands(s, p);
      }
    }
  }

  /** So the texts are unambiguous. */
  lemma {:induction false} AcceptsOnce(s: bytes, p: nat, v: Json, e: nat, w: Json, f: nat)
    requires Outside(s, p) && Accepts(s, p, v, e) && Accepts(s, p, w, f)
    ensures v == w && e == f
  {
    hide Accepts, ParseValue, Outside;
    ValueParses(s, p, v, e);
    ValueParses(s, p, w, f);
  }

  /** The text begins with blanks and then with a text of v, up to e. */
  ghost predicate Begun(s: bytes, blanks: bytes, v: Json, e: nat) {
    Blank(blanks) && At(s, 0, blanks) && Accepts(s, |blanks|, v, e)
  }

  lemma {:induction false} AcceptedFirst(s: bytes, p: nat, v: Json, e: nat)
    requires Accepts(s, p, v, e)
    ensures Peek(s, p) > SPACE
  {
    hide At, ArePieces, BodyText, BodyTokens, Meaning, IsDoc, ValueOf, DocText, Longest;
    if d :| IsDoc(d) && StandsUpTo(d, s, p, e) && ValueOf(d) == v {
      DocFirst(d);
      AtFirst(s, p, DocText(d));
    } else {
      var xs :| ArePieces(xs) && Unclosed(xs, s, p, e) && Str(Meaning(BodyTokens(xs))) == v;
      AtFirst(s, p, [QUOTE] + BodyText(xs));
    }
  }

  lemma {:induction false} BegunParses(s: bytes, blanks: bytes, v: Json, e: nat)
    requires Outside(s, 0) && Begun(s, blanks, v, e)
    ensures Parse(s) == Ok(v, e)
  {
    hide At, Blank, Accepts, ParseValue, Outside, Skip;
    AcceptedFirst(s, |blanks|, v, e);
    SkipBlank(s, 0, blanks);
    SkipOutside(s, 0);
    ValueParses(s, |blanks|, v, e);
  }

  /** cJSON_Parse gives the value of the text behind leading blanks, and nothing exactly when no prefix is a
      text of JSON. */
  lemma {:induction false} TextParses(s: bytes)
    requires Outside(s, 0)
    ensures forall v, e :: Parse(s) == Ok(v, e) <==> exists blanks :: Begun(s, blanks, v, e)
    ensures Parse(s).Fail? <==> forall blanks, v, e :: !Begun(s, blanks, v, e)
  {
    hide At, Blank, Accepts, ParseValue, Outside, Skip, Begun, Parse;
    forall blanks, v, e | Begun(s, blanks, v, e)
      ensures Parse(s) == Ok(v, e)
    {
      BegunParses(s, blanks, v, e);
    }
    if Parse(s).Ok? {
      ParsesBegun(s);
    }
  }

  lemma {:induction false} ParsesBegun(s: bytes)
    requires Outside(s, 0) && Parse(s).Ok?
    ensures exists blanks :: Begun(s, blanks, Parse(s).value, Parse(s).next)
  {
    hide At, Blank, Accepts, ParseValue, Outside, Skip;
    SkipStands(s, 0);
    var blanks := s[0..Skip(s, 0)];
    SkipOutside(s, 0);
    ValueParses(s, |blanks|, Parse(s).value, Parse(s).next);
    assert Begun(s, blanks, Parse(s).value, Parse(s).next);
  }
}
