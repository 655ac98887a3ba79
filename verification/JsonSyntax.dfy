/** The texts that cJSON accepts, as syntax trees with every blank and every spelling in them, and that the
    parser accepts exactly these. */
module JsonSyntax {
  import opened Bytes
  import opened CText
  import opened Seqs
  import opened JsonString
  import opened JsonNumber
  import opened NumberSyntax
  import opened JsonDouble
  import opened JsonTree
  import opened JsonParse
  import opened JsonRoundTrip

  // ---------- string literals ----------

  /** A byte that stands for itself, an escape of one letter, or four hexadecimal digits. */
  datatype Piece = Plain(c: byte) | Letter(c: byte) | Hex(digits: bytes)

  predicate IsPiece(x: Piece) {
    match x
    case Plain(c) => c != QUOTE && c != BACKSLASH && c != NUL
    case Letter(c) => c != LOWER_U && c != NUL
    case Hex(digits) => |digits| == 4 && Hex4At(digits, 0)
  }

  predicate ArePieces(xs: seq<Piece>) {
    xs == [] || (IsPiece(xs[0]) && ArePieces(xs[1..]))
  }

  function PieceText(x: Piece): (t: bytes)
    ensures t != []
  {
    match x
    case Plain(c) => [c]
    case Letter(c) => [BACKSLASH, c]
    case Hex(digits) => [BACKSLASH, LOWER_U] + digits
  }

  /** Any other letter, among them the quote, the slash and the backslash, stands for itself. */
  function PieceToken(x: Piece): Token
    requires IsPiece(x)
  {
    match x
    case Plain(c) => Raw(c)
    case Letter(c) => Raw(if c in LETTERS then LETTERS[c] else c)
    case Hex(digits) => Unit(Hex4(digits, 0))
  }

  function BodyText(xs: seq<Piece>): bytes {
    if xs == [] then [] else PieceText(xs[0]) + BodyText(xs[1..])
  }

  function BodyTokens(xs: seq<Piece>): seq<Token>
    requires ArePieces(xs)
  {
    if xs == [] then [] else [PieceToken(xs[0])] + BodyTokens(xs[1..])
  }

  lemma {:induction false} HexSame(digits: bytes, s: bytes, p: nat)
    requires |digits| == 4 && At(s, p, digits)
    ensures Hex4At(digits, 0) <==> Hex4At(s, p)
    ensures Hex4At(s, p) ==> Hex4(digits, 0) == Hex4(s, p)
  {
    AtIndex(s, p, digits, 0);
    AtIndex(s, p, digits, 1);
    AtIndex(s, p, digits, 2);
    AtIndex(s, p, digits, 3);
  }

  /** From p to q the reader of a body takes one token. */
  predicate Turn(s: bytes, p: nat, q: nat, t: Token)
    requires Inside(s, p)
  {
    Inside(s, q) && BodyEnd(s, p) == BodyEnd(s, q) && Tokens(s, p) == [t] + Tokens(s, q)
  }

  lemma {:induction false} BodyTurn(s: bytes, p: nat)
    requires Inside(s, p) && s[p] != QUOTE && s[p] != NUL
    ensures s[p] != BACKSLASH ==> Turn(s, p, p + 1, Raw(s[p]))
    ensures s[p] == BACKSLASH ==> p + 1 < |s| && s[p + 1] != NUL
    ensures s[p] == BACKSLASH && s[p + 1] != LOWER_U ==> Turn(s, p, p + 2, Raw(Unescape(s[p + 1])))
    ensures s[p] == BACKSLASH && s[p + 1] == LOWER_U ==>
      Hex4At(s, p + 2) && Turn(s, p, p + 6, Unit(Hex4(s, p + 2)))
  {
    if s[p] == BACKSLASH && s[p + 1] == LOWER_U {
      InsideHex4(s, p + 2);
      BodyEndHex4(s, p + 2);
    }
  }

  lemma {:induction false} PieceReads(x: Piece, s: bytes, p: nat)
    requires IsPiece(x) && At(s, p, PieceText(x)) && Inside(s, p)
    ensures Turn(s, p, p + |PieceText(x)|, PieceToken(x))
  {
    AtIndex(s, p, PieceText(x), 0);
    if !x.Plain? {
      AtIndex(s, p, PieceText(x), 1);
    }
    if x.Letter? {
      LettersMean(x.c);
    }
    if x.Hex? {
      AtSplit(s, p, [BACKSLASH, LOWER_U], x.digits);
      HexSame(x.digits, s, p + 2);
    }
    hide At, Hex4At, Hex4, Turn, Inside, Unescape;
    BodyTurn(s, p);
  }

  lemma {:induction false} BodyDone(s: bytes, p: nat)
    requires Inside(s, p) && (Peek(s, p) == QUOTE || Peek(s, p) == NUL)
    ensures BodyEnd(s, p) == p && Tokens(s, p) == []
  {}

  /** A body is read as its pieces, up to the quote or the terminator behind it. */
  lemma {:induction false} BodyReads(xs: seq<Piece>, s: bytes, p: nat)
    requires ArePieces(xs) && At(s, p, BodyText(xs)) && Inside(s, p)
    requires Peek(s, p + |BodyText(xs)|) == QUOTE || Peek(s, p + |BodyText(xs)|) == NUL
    ensures BodyEnd(s, p) == p + |BodyText(xs)| && Tokens(s, p) == BodyTokens(xs)
    decreases |xs|
  {
    hide At, PieceText, PieceToken, IsPiece, Tokens, BodyEnd, Inside, Peek;
    if xs == [] {
      BodyDone(s, p);
    } else {
      AtSplit(s, p, PieceText(xs[0]), BodyText(xs[1..]));
      PieceReads(xs[0], s, p);
      BodyReads(xs[1..], s, p + |PieceText(xs[0])|);
    }
  }

  /** The piece at p, where the body does not end. */
  function PieceAt(s: bytes, p: nat): Piece
    requires Inside(s, p) && s[p] != QUOTE && s[p] != NUL
  {
    if s[p] != BACKSLASH then Plain(s[p])
    else if s[p + 1] != LOWER_U then Letter(s[p + 1])
    else Hex(s[p + 2..p + 6])
  }

  lemma {:induction false} PieceStands(s: bytes, p: nat)
    requires Inside(s, p) && s[p] != QUOTE && s[p] != NUL
    ensures IsPiece(PieceAt(s, p)) && At(s, p, PieceText(PieceAt(s, p))) && p + |PieceText(PieceAt(s, p))| <= |s|
  {
    BodyTurn(s, p);
    var x := PieceAt(s, p);
    if x.Hex? {
      AtSlice(s, p + 2, p + 6);
      HexSame(x.digits, s, p + 2);
      AtSlice(s, p, p + 2);
      assert s[p..p + 2] == [BACKSLASH, LOWER_U];
      AtJoin(s, p, [BACKSLASH, LOWER_U], x.digits);
    } else if x.Letter? {
      AtSlice(s, p, p + 2);
      assert s[p..p + 2] == [BACKSLASH, s[p + 1]];
    } else {
      AtOne(s, p);
    }
  }

  /** The pieces of the body at p. */
  lemma {:induction false} BodyStands(s: bytes, p: nat) returns (xs: seq<Piece>)
    requires Inside(s, p)
    ensures ArePieces(xs) && At(s, p, BodyText(xs)) && BodyEnd(s, p) == p + |BodyText(xs)|
    decreases |s| - p
  {
    hide At, PieceText, PieceToken, IsPiece, PieceAt, Tokens;
    if s[p] == QUOTE || s[p] == NUL {
      xs := [];
      AtNone(s, p);
    } else {
      var x := PieceAt(s, p);
      PieceStands(s, p);
      PieceReads(x, s, p);
      var rest := BodyStands(s, p + |PieceText(x)|);
      xs := [x] + rest;
      ConsTail(x, rest);
      AtJoin(s, p, PieceText(x), BodyText(rest));
    }
  }

  // ---------- values ----------

  /** A text of a value: a word, a number, a string literal, or a container with everything in it. A
      container without items or members may have blanks between its brackets. */
  datatype Doc =
    | Word(v: Json)
    | Number(n: Loose)
    | Literal(xs: seq<Piece>)
    | Items(inner: bytes, items: seq<Item>)
    | Pairs(inner: bytes, pairs: seq<Pair>)

  /** A value with blanks before and behind it. */
  datatype Item = Item(before: bytes, doc: Doc, behind: bytes)

  /** A name with blanks before and behind it, and the value behind the colon. */
  datatype Pair = Pair(before: bytes, name: seq<Piece>, behind: bytes, item: Item)

  function WordText(v: Json): bytes {
    match v
    case Null => [0x6E, 0x75, 0x6C, 0x6C]
    case Bool(b) => if b then [0x74, 0x72, 0x75, 0x65] else [0x66, 0x61, 0x6C, 0x73, 0x65]
    case _ => []
  }

  function LiteralText(xs: seq<Piece>): bytes {
    [QUOTE] + (BodyText(xs) + [QUOTE])
  }

  function DocText(d: Doc): bytes
    decreases d, 0
  {
    match d
    case Word(v) => WordText(v)
    case Number(n) => LooseText(n)
    case Literal(xs) => LiteralText(xs)
    case Items(inner, items) => [LBRACKET] + ((if items == [] then inner else ItemsText(items)) + [RBRACKET])
    case Pairs(inner, pairs) => [LBRACE] + ((if pairs == [] then inner else PairsText(pairs)) + [RBRACE])
  }

  function ItemText(i: Item): bytes
    decreases i, 1
  {
    i.before + (DocText(i.doc) + i.behind)
  }

  function ItemsText(items: seq<Item>): bytes
    decreases items, 2
  {
    if items == [] then []
    else if |items| == 1 then ItemText(items[0])
    else ItemText(items[0]) + ([COMMA] + ItemsText(items[1..]))
  }

  function PairText(m: Pair): bytes
    decreases m, 2
  {
    m.before + (LiteralText(m.name) + (m.behind + ([COLON] + ItemText(m.item))))
  }

  function PairsText(pairs: seq<Pair>): bytes
    decreases pairs, 3
  {
    if pairs == [] then []
    else if |pairs| == 1 then PairText(pairs[0])
    else PairText(pairs[0]) + ([COMMA] + PairsText(pairs[1..]))
  }

  /** The text is one of JSON, as cJSON sees it: blanks are all the characters up to the space. */
  predicate IsDoc(d: Doc)
    decreases d, 0
  {
    match d
    case Word(v) => v.Null? || v.Bool?
    case Number(n) => IsNumber(n)
    case Literal(xs) => ArePieces(xs)
    case Items(inner, items) => Blank(inner) && AreItems(items)
    case Pairs(inner, pairs) => Blank(inner) && ArePairs(pairs)
  }

  predicate IsItem(i: Item)
    decreases i, 1
  {
    Blank(i.before) && IsDoc(i.doc) && Blank(i.behind)
  }

  predicate AreItems(items: seq<Item>)
    decreases items, 2
  {
    items == [] || (IsItem(items[0]) && AreItems(items[1..]))
  }

  predicate IsPair(m: Pair)
    decreases m, 2
  {
    Blank(m.before) && ArePieces(m.name) && Blank(m.behind) && IsItem(m.item)
  }

  predicate ArePairs(pairs: seq<Pair>)
    decreases pairs, 3
  {
    pairs == [] || (IsPair(pairs[0]) && ArePairs(pairs[1..]))
  }

  /** The value of a text. */
  function ValueOf(d: Doc): Json
    requires IsDoc(d)
    decreases d, 0
  {
    match d
    case Word(v) => v
    case Number(n) => Num(DoubleOf(LooseDecimal(n)))
    case Literal(xs) => Str(Meaning(BodyTokens(xs)))
    case Items(inner, items) => Arr(ValuesOf(items))
    case Pairs(inner, pairs) => Obj(MembersOf(pairs))
  }

  function ItemValue(i: Item): Json
    requires IsItem(i)
    decreases i, 1
  {
    ValueOf(i.doc)
  }

  function ValuesOf(items: seq<Item>): seq<Json>
    requires AreItems(items)
    decreases items, 2
  {
    if items == [] then [] else [ItemValue(items[0])] + ValuesOf(items[1..])
  }

  function MemberOf(m: Pair): Member
    requires IsPair(m)
    decreases m, 2
  {
    Member(Named(Meaning(BodyTokens(m.name))), ItemValue(m.item))
  }

  function MembersOf(pairs: seq<Pair>): seq<Member>
    requires ArePairs(pairs)
    decreases pairs, 3
  {
    if pairs == [] then [] else [MemberOf(pairs[0])] + MembersOf(pairs[1..])
  }

  // ---------- texts at positions ----------

  /** No longer number text stands at p than the one up to e. */
  ghost predicate Longest(s: bytes, p: nat, e: nat) {
    forall n: Loose :: IsNumber(n) && At(s, p, LooseText(n)) ==> p + |LooseText(n)| <= e
  }

  /** From p to e stands a text of the value: a number as long as it goes on; or a string literal without
      its closing quote, if the text ends there. */
  ghost predicate Accepts(s: bytes, p: nat, v: Json, e: nat) {
    || (exists d :: IsDoc(d) && StandsUpTo(d, s, p, e) && ValueOf(d) == v)
    || (exists xs :: ArePieces(xs) && Unclosed(xs, s, p, e) && Str(Meaning(BodyTokens(xs))) == v)
  }

  ghost predicate StandsUpTo(d: Doc, s: bytes, p: nat, e: nat) {
    At(s, p, DocText(d)) && e == p + |DocText(d)| && (d.Number? ==> Longest(s, p, e))
  }

  predicate Unclosed(xs: seq<Piece>, s: bytes, p: nat, e: nat) {
    At(s, p, [QUOTE] + BodyText(xs)) && e == p + 1 + |BodyText(xs)| && Peek(s, e) == NUL
  }

  // ---------- the parser reads every such text ----------

  lemma {:induction false} NumberBefore(n: Loose, s: bytes, p: nat, e: nat)
    requires IsNumber(n) && At(s, p, LooseText(n)) && !NumberChar(Peek(s, e)) && p < e
    ensures p + |LooseText(n)| <= e
  {
    hide IsNumber, LooseText, NumberChar, At;
    LooseChars(n);
    if p + |LooseText(n)| > e {
      AtIndex(s, p, LooseText(n), e - p);
    }
  }

  lemma {:induction false} LongestWhen(s: bytes, p: nat, e: nat)
    requires !NumberChar(Peek(s, e)) && p < e
    ensures Longest(s, p, e)
  {
    hide IsNumber, LooseText, NumberChar, At;
    forall n: Loose | IsNumber(n) && At(s, p, LooseText(n))
      ensures p + |LooseText(n)| <= e
    {
      NumberBefore(n, s, p, e);
    }
  }

  lemma {:induction false} LongestIs(s: bytes, p: nat, e: nat, n: Loose)
    requires Longest(s, p, e) && IsNumber(n) && At(s, p, LooseText(n))
    ensures p + |LooseText(n)| <= e
  {}

  lemma {:induction false} NumberParses(s: bytes, p: nat)
    requires Outside(s, p) && (Peek(s, p) == MINUS || IsDigit(Peek(s, p)))
    ensures ParseValue(s, p) == Ok(Num(DoubleAt(s, p)), ReadNumber(s, p).next)
  {
    hide ReadNumber, DoubleAt, At, ParseArray, ParseObject, ParseString, Outside;
    NotLiteral(s, p);
  }

  lemma {:induction false} NumberTaken(n: Loose, s: bytes, p: nat)
    requires IsNumber(n) && At(s, p, LooseText(n)) && Longest(s, p, p + |LooseText(n)|)
    ensures p <= |s| && (Peek(s, p) == MINUS || IsDigit(Peek(s, p)))
    ensures ReadNumber(s, p) == Reading(LooseDecimal(n), p + |LooseText(n)|)
  {
    hide At, IsNumber, LooseText, LooseDecimal, Taken, ReadNumber, Longest, IsDigit, NumberChar;
    LooseChars(n);
    AtFirst(s, p, LooseText(n));
    LooseLongest(n, s, p);
    TakenStands(s, p);
    LongestIs(s, p, p + |LooseText(n)|, Taken(s, p));
  }

  lemma {:induction false} NumberReads(n: Loose, s: bytes, p: nat)
    requires IsNumber(n) && At(s, p, LooseText(n)) && Longest(s, p, p + |LooseText(n)|) && Outside(s, p)
    ensures ParseValue(s, p) == Ok(Num(DoubleOf(LooseDecimal(n))), p + |LooseText(n)|)
  {
    hide At, IsNumber, LooseText, LooseDecimal, ReadNumber, DoubleOf, Longest, Outside, ParseValue, IsDigit;
    NumberTaken(n, s, p);
    NumberParses(s, p);
  }

  lemma {:induction false} WordReads(v: Json, s: bytes, p: nat)
    requires (v.Null? || v.Bool?) && At(s, p, WordText(v)) && Outside(s, p)
    ensures ParseValue(s, p) == Ok(v, p + |WordText(v)|)
  {
    assert WordText(v) == Print(v, 0, false);
    LiteralRoundTrip(v, s, p);
  }

  lemma {:induction false} StringIs(s: bytes, p: nat)
    requires Outside(s, p) && Peek(s, p) == QUOTE
    ensures Inside(s, p + 1)
    ensures var e := BodyEnd(s, p + 1);
      ParseString(s, p) == Ok(Meaning(Tokens(s, p + 1)), if Peek(s, e) == QUOTE then e + 1 else e)
  {}

  /** The closing quote, or the terminator, ends a literal. */
  lemma {:induction false} QuotedReads(xs: seq<Piece>, s: bytes, p: nat)
    requires ArePieces(xs) && At(s, p, [QUOTE] + BodyText(xs)) && Outside(s, p)
    requires Peek(s, p + 1 + |BodyText(xs)|) == QUOTE || Peek(s, p + 1 + |BodyText(xs)|) == NUL
    ensures ParseString(s, p) == Ok(Meaning(BodyTokens(xs)),
      p + 1 + |BodyText(xs)| + (if Peek(s, p + 1 + |BodyText(xs)|) == QUOTE then 1 else 0))
  {
    hide At, Outside, Inside, ParseString, Tokens, BodyEnd, BodyTokens, BodyText, ArePieces, Meaning, Peek;
    AtSplit(s, p, [QUOTE], BodyText(xs));
    AtFirst(s, p, [QUOTE]);
    StringIs(s, p);
    BodyReads(xs, s, p + 1);
  }

  lemma {:induction false} LiteralReads(xs: seq<Piece>, s: bytes, p: nat)
    requires ArePieces(xs) && At(s, p, LiteralText(xs)) && Outside(s, p)
    ensures Peek(s, p) == QUOTE
    ensures ParseString(s, p) == Ok(Meaning(BodyTokens(xs)), p + |LiteralText(xs)|)
  {
    hide At, Outside, ParseString, BodyTokens, ArePieces;
    Assoc([QUOTE], BodyText(xs), [QUOTE]);
    AtSplit(s, p, [QUOTE] + BodyText(xs), [QUOTE]);
    AtFirst(s, p, LiteralText(xs));
    AtFirst(s, p + 1 + |BodyText(xs)|, [QUOTE]);
    QuotedReads(xs, s, p);
  }

  lemma {:induction false} StringParses(s: bytes, p: nat)
    requires Outside(s, p) && Peek(s, p) == QUOTE
    ensures ParseString(s, p).Ok? && ParseValue(s, p) == Ok(Str(ParseString(s, p).value), ParseString(s, p).next)
  {
    NotLiteral(s, p);
    hide ReadNumber, DoubleAt, At, ParseArray, ParseObject;
  }

  /** Some blanks, up to a character that is none. */
  lemma {:induction false} BlankBefore(t: bytes, u: bytes, s: bytes, p: nat)
    requires Blank(t) && At(s, p, t + u) && u != [] && u[0] > SPACE
    ensures Skip(s, p) == p + |t| && At(s, p + |t|, u) && Peek(s, p + |t|) == u[0]
  {
    AtSplit(s, p, t, u);
    AtFirst(s, p + |t|, u);
    SkipBlank(s, p, t);
  }

  lemma {:induction false} DocFirst(d: Doc)
    requires IsDoc(d)
    ensures DocText(d) != [] && DocText(d)[0] > SPACE && DocText(d)[0] != RBRACKET && DocText(d)[0] != RBRACE
  {
    if d.Number? {
      LooseChars(d.n);
    }
  }

  /** What may stand behind an item. */
  predicate Ends(c: byte) {
    c == COMMA || c == RBRACKET || c == RBRACE
  }

  /** From p, behind blanks, the item's value is read, and blanks lead from it to the end of the item. */
  predicate ItemParses(i: Item, s: bytes, p: nat)
    requires IsItem(i) && Outside(s, p)
  {
    var q := p + |i.before| + |DocText(i.doc)|;
    && ParseItem(s, p) == Ok(ItemValue(i), q) && Skip(s, q) == p + |ItemText(i)|
    && Peek(s, Skip(s, p)) != RBRACKET && Peek(s, Skip(s, p)) != RBRACE
  }

  /** Blanks, or what ends an item, do not continue a number. */
  lemma {:induction false} BehindItem(t: bytes, s: bytes, p: nat)
    requires Blank(t) && At(s, p, t) && Ends(Peek(s, p + |t|))
    ensures !NumberChar(Peek(s, p)) && Skip(s, p) == p + |t|
  {
    SkipBlank(s, p, t);
    if t != [] {
      AtFirst(s, p, t);
    }
  }

  lemma {:induction false} ItemSplits(i: Item, s: bytes, p: nat, q: nat, e: nat)
    requires IsItem(i) && At(s, p, ItemText(i)) && Ends(Peek(s, p + |ItemText(i)|))
    requires q == p + |i.before| && e == q + |DocText(i.doc)|
    ensures Skip(s, p) == q && At(s, q, DocText(i.doc)) && Skip(s, e) == p + |ItemText(i)|
    ensures !NumberChar(Peek(s, e)) && Peek(s, q) != RBRACKET && Peek(s, q) != RBRACE && q < e
  {
    hide At, Blank, IsDoc, Skip, DocText, Ends, NumberChar, Peek;
    DocFirst(i.doc);
    var t := DocText(i.doc);
    assert (t + i.behind)[0] == t[0];
    BlankBefore(i.before, t + i.behind, s, p);
    AtSplit(s, q, t, i.behind);
    BehindItem(i.behind, s, e);
  }

  /** Every text is read whole, with its value. */
  lemma {:induction false} DocReads(d: Doc, s: bytes, p: nat)
    requires IsDoc(d) && At(s, p, DocText(d)) && Outside(s, p)
    requires d.Number? ==> Longest(s, p, p + |DocText(d)|)
    ensures ParseValue(s, p) == Ok(ValueOf(d), p + |DocText(d)|)
    decreases d, 0
  {
    hide At, Outside, ParseValue, ParseString, Longest;
    match d
    case Word(v) => WordReads(v, s, p);
    case Number(n) => NumberReads(n, s, p);
    case Literal(xs) =>
      LiteralReads(xs, s, p);
      StringParses(s, p);
    case Items(inner, items) =>
      if items == [] {
        EmptyReads(inner, LBRACKET, RBRACKET, s, p);
      } else {
        ArrayReads(inner, items, s, p);
      }
    case Pairs(inner, pairs) =>
      if pairs == [] {
        EmptyReads(inner, LBRACE, RBRACE, s, p);
      } else {
        ObjectReads(inner, pairs, s, p);
      }
  }

  lemma {:induction false} EmptyReads(inner: bytes, open: byte, close: byte, s: bytes, p: nat)
    requires Blank(inner) && At(s, p, [open] + (inner + [close])) && Outside(s, p)
    requires (open == LBRACKET && close == RBRACKET) || (open == LBRACE && close == RBRACE)
    ensures ParseValue(s, p) == Ok(if open == LBRACKET then Arr([]) else Obj([]), p + 2 + |inner|)
  {
    hide At, Outside, ParseValue, Skip;
    AtSplit(s, p, [open], inner + [close]);
    AtFirst(s, p, [open]);
    BlankBefore(inner, [close], s, p + 1);
    EmptyContainer(s, p);
  }

  lemma {:induction false} ItemReads(i: Item, s: bytes, p: nat)
    requires IsItem(i) && At(s, p, ItemText(i)) && Outside(s, p) && Ends(Peek(s, p + |ItemText(i)|))
    ensures ItemParses(i, s, p)
    decreases i, 1
  {
    hide At, Outside, ParseValue, Skip, Longest, ItemText, DocText;
    var q := p + |i.before|;
    ItemSplits(i, s, p, q, q + |DocText(i.doc)|);
    SkipOutside(s, p);
    LongestWhen(s, q, q + |DocText(i.doc)|);
    DocReads(i.doc, s, q);
  }

  lemma {:induction false} SkipOutside(s: bytes, p: nat)
    requires Outside(s, p)
    ensures Outside(s, Skip(s, p))
  {}

  /** Leading blanks do not matter. */
  lemma {:induction false} ItemsSkip(s: bytes, p: nat)
    requires Outside(s, p)
    ensures ParseItems(s, Skip(s, p)) == ParseItems(s, p)
  {
    SkipTwice(s, p);
    assert ParseItem(s, Skip(s, p)) == ParseItem(s, p);
    hide ParseItem, Skip;
  }

  lemma {:induction false} ItemsSplit(items: seq<Item>, s: bytes, p: nat, e: nat)
    requires |items| > 1 && At(s, p, ItemsText(items) + [RBRACKET]) && e == p + |ItemText(items[0])|
    ensures At(s, p, ItemText(items[0])) && Peek(s, e) == COMMA && At(s, e + 1, ItemsText(items[1..]) + [RBRACKET])
    ensures p + |ItemsText(items)| == e + 1 + |ItemsText(items[1..])|
  {
    hide At, ItemText;
    var t, u := ItemText(items[0]), ItemsText(items[1..]);
    Assoc(t, [COMMA] + u, [RBRACKET]);
    Assoc([COMMA], u, [RBRACKET]);
    AtSplit(s, p, t, [COMMA] + (u + [RBRACKET]));
    AtSplit(s, e, [COMMA], u + [RBRACKET]);
    AtFirst(s, e, [COMMA]);
  }

  lemma {:induction false} ItemsReads(items: seq<Item>, s: bytes, p: nat)
    requires items != [] && AreItems(items) && At(s, p, ItemsText(items) + [RBRACKET]) && Outside(s, p)
    ensures ParseItems(s, p) == Ok(ValuesOf(items), p + |ItemsText(items)| + 1)
    ensures Peek(s, Skip(s, p)) != RBRACKET
    decreases items, 2
  {
    hide At, Outside, ParseItem, ParseItems, Skip, ItemText, IsItem, ItemValue, DocText;
    var i := items[0];
    var e := p + |ItemText(i)|;
    var q := p + |i.before| + |DocText(i.doc)|;
    ItemsParts(items);
    if |items| == 1 {
      AtSplit(s, p, ItemText(i), [RBRACKET]);
      AtFirst(s, e, [RBRACKET]);
      ItemReads(i, s, p);
      ItemsLast(s, p, ItemValue(i), q);
    } else {
      ItemsSplit(items, s, p, e);
      ItemReads(i, s, p);
      AfterItem(i, s, p);
      ItemsReads(items[1..], s, e + 1);
      ItemsMore(s, p, ItemValue(i), q, ValuesOf(items[1..]), p + |ItemsText(items)| + 1);
    }
  }

  lemma {:induction false} ItemsParts(items: seq<Item>)
    requires items != [] && AreItems(items)
    ensures IsItem(items[0]) && AreItems(items[1..])
    ensures |items| == 1 ==> ValuesOf(items) == [ItemValue(items[0])]
  {}

  /** Behind an item and its comma one is outside a literal. */
  lemma {:induction false} AfterItem(i: Item, s: bytes, p: nat)
    requires IsItem(i) && Outside(s, p) && ItemParses(i, s, p) && Peek(s, p + |ItemText(i)|) == COMMA
    ensures Outside(s, p + |ItemText(i)| + 1)
  {
    hide ParseItem, Skip, ItemText, DocText;
    var q := p + |i.before| + |DocText(i.doc)|;
    ParsedOutside(s, p);
    SkipOutside(s, q);
    OutsideStep(s, p + |ItemText(i)|);
  }

  lemma {:induction false} ParsedOutside(s: bytes, p: nat)
    requires Outside(s, p) && ParseItem(s, p).Ok?
    ensures Outside(s, ParseItem(s, p).next)
  {}

  lemma {:induction false} ArrayReads(inner: bytes, items: seq<Item>, s: bytes, p: nat)
    requires items != [] && AreItems(items) && Outside(s, p) && At(s, p, DocText(Items(inner, items)))
    ensures ParseValue(s, p) == Ok(Arr(ValuesOf(items)), p + |DocText(Items(inner, items))|)
    decreases items, 3
  {
    hide At, Outside, ParseItems, ParseValue, Skip, AreItems, ItemsText;
    AtSplit(s, p, [LBRACKET], ItemsText(items) + [RBRACKET]);
    AtFirst(s, p, [LBRACKET]);
    OutsideStep(s, p);
    ItemsReads(items, s, p + 1);
    ItemsSkip(s, p + 1);
    ArrayIs(s, p, ValuesOf(items), p + 1 + |ItemsText(items)| + 1);
  }

  /** The name, the colon and the value of a pair. */
  lemma {:induction false} PairSplits(m: Pair, s: bytes, p: nat)
    requires IsPair(m) && At(s, p, PairText(m))
    ensures var q := p + |m.before|; var e := q + |LiteralText(m.name)|; var c := e + |m.behind|;
      && Skip(s, p) == q && At(s, q, LiteralText(m.name)) && Peek(s, q) == QUOTE
      && Skip(s, e) == c && Peek(s, c) == COLON && At(s, c + 1, ItemText(m.item))
      && c + 1 + |ItemText(m.item)| == p + |PairText(m)|
  {
    hide At, Blank, IsItem, Skip, ItemText, ArePieces;
    var t, u := LiteralText(m.name), [COLON] + ItemText(m.item);
    BlankBefore(m.before, t + (m.behind + u), s, p);
    AtSplit(s, p + |m.before|, t, m.behind + u);
    BlankBefore(m.behind, u, s, p + |m.before| + |t|);
    AtSplit(s, p + |m.before| + |t| + |m.behind|, [COLON], ItemText(m.item));
  }

  predicate PairParses(m: Pair, s: bytes, p: nat)
    requires IsPair(m) && Outside(s, p)
  {
    var q := p + |PairText(m)| - |m.item.behind|;
    && p <= q && ParseMember(s, p) == Ok(MemberOf(m), q) && Skip(s, q) == p + |PairText(m)|
    && Peek(s, Skip(s, p)) == QUOTE
  }

  lemma {:induction false} PairReads(m: Pair, s: bytes, p: nat)
    requires IsPair(m) && At(s, p, PairText(m)) && Outside(s, p) && Ends(Peek(s, p + |PairText(m)|))
    ensures PairParses(m, s, p)
    decreases m, 2
  {
    hide At, Outside, ParseItem, ParseString, ParseMember, Skip, IsItem, ArePieces, LiteralText, BodyTokens, Blank;
    var q := p + |m.before|;
    var e := q + |LiteralText(m.name)|;
    var c := e + |m.behind|;
    PairSplits(m, s, p);
    SkipOutside(s, p);
    LiteralReads(m.name, s, q);
    NameOutside(s, q);
    SkipOutside(s, e);
    OutsideStep(s, c);
    ItemReads(m.item, s, c + 1);
    MemberIs(s, p, Meaning(BodyTokens(m.name)), e, ItemValue(m.item),
             c + 1 + |m.item.before| + |DocText(m.item.doc)|);
  }

  lemma {:induction false} NameOutside(s: bytes, p: nat)
    requires Outside(s, p) && ParseString(s, p).Ok?
    ensures Outside(s, ParseString(s, p).next)
  {}

  lemma {:induction false} AfterPair(m: Pair, s: bytes, p: nat)
    requires IsPair(m) && Outside(s, p) && PairParses(m, s, p) && Peek(s, p + |PairText(m)|) == COMMA
    ensures Outside(s, p + |PairText(m)| + 1)
  {
    hide ParseMember, Skip, PairText;
    MemberOutside(s, p);
    SkipOutside(s, ParseMember(s, p).next);
    OutsideStep(s, p + |PairText(m)|);
  }

  lemma {:induction false} MemberOutside(s: bytes, p: nat)
    requires Outside(s, p) && ParseMember(s, p).Ok?
    ensures Outside(s, ParseMember(s, p).next)
  {}

  lemma {:induction false} PairsParts(pairs: seq<Pair>)
    requires pairs != [] && ArePairs(pairs)
    ensures IsPair(pairs[0]) && ArePairs(pairs[1..])
    ensures |pairs| == 1 ==> MembersOf(pairs) == [MemberOf(pairs[0])]
  {}

  lemma {:induction false} PairsSplit(pairs: seq<Pair>, s: bytes, p: nat, e: nat)
    requires |pairs| > 1 && At(s, p, PairsText(pairs) + [RBRACE]) && e == p + |PairText(pairs[0])|
    ensures At(s, p, PairText(pairs[0])) && Peek(s, e) == COMMA && At(s, e + 1, PairsText(pairs[1..]) + [RBRACE])
    ensures p + |PairsText(pairs)| == e + 1 + |PairsText(pairs[1..])|
  {
    hide At, PairText;
    var t, u := PairText(pairs[0]), PairsText(pairs[1..]);
    Assoc(t, [COMMA] + u, [RBRACE]);
    Assoc([COMMA], u, [RBRACE]);
    AtSplit(s, p, t, [COMMA] + (u + [RBRACE]));
    AtSplit(s, e, [COMMA], u + [RBRACE]);
    AtFirst(s, e, [COMMA]);
  }

  lemma {:induction false} PairsReads(pairs: seq<Pair>, s: bytes, p: nat)
    requires pairs != [] && ArePairs(pairs) && At(s, p, PairsText(pairs) + [RBRACE]) && Outside(s, p)
    ensures ParseMembers(s, p) == Ok(MembersOf(pairs), p + |PairsText(pairs)| + 1)
    ensures Peek(s, Skip(s, p)) == QUOTE
    decreases pairs, 3
  {
    hide At, Outside, ParseMember, ParseMembers, Skip, PairText, IsPair, MemberOf;
    var m := pairs[0];
    var e := p + |PairText(m)|;
    PairsParts(pairs);
    if |pairs| == 1 {
      AtSplit(s, p, PairText(m), [RBRACE]);
      AtFirst(s, e, [RBRACE]);
      PairReads(m, s, p);
      MembersLast(s, p, MemberOf(m), e - |m.item.behind|);
    } else {
      PairsSplit(pairs, s, p, e);
      PairReads(m, s, p);
      AfterPair(m, s, p);
      PairsReads(pairs[1..], s, e + 1);
      MembersMore(s, p, MemberOf(m), e - |m.item.behind|, MembersOf(pairs[1..]), p + |PairsText(pairs)| + 1);
    }
  }

  lemma {:induction false} ObjectReads(inner: bytes, pairs: seq<Pair>, s: bytes, p: nat)
    requires pairs != [] && ArePairs(pairs) && Outside(s, p) && At(s, p, DocText(Pairs(inner, pairs)))
    ensures ParseValue(s, p) == Ok(Obj(MembersOf(pairs)), p + |DocText(Pairs(inner, pairs))|)
    decreases pairs, 4
  {
    hide At, Outside, ParseMembers, ParseValue, Skip, ArePairs, PairsText;
    AtSplit(s, p, [LBRACE], PairsText(pairs) + [RBRACE]);
    AtFirst(s, p, [LBRACE]);
    OutsideStep(s, p);
    PairsReads(pairs, s, p + 1);
    ObjectIs(s, p, MembersOf(pairs), p + 1 + |PairsText(pairs)| + 1);
  }
}
