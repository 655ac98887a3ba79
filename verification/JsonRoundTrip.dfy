/** Parsing undoes printing, in both forms. */
module JsonRoundTrip {
  import opened Bytes
  import opened CText
  import opened Doubles
  import opened JsonString
  import opened JsonNumber
  import opened JsonDouble
  import opened NumberFormat
  import opened NumberReread
  import opened JsonTree
  import opened JsonParse
  import opened Seqs

  predicate Blank(t: bytes) {
    t == [] || (NUL < t[0] <= SPACE && Blank(t[1..]))
  }

  lemma {:induction false} BlankJoin(a: bytes, b: bytes)
    requires Blank(a) && Blank(b)
    ensures Blank(a + b)
  {
    if a == [] {
      assert a + b == b;
    } else {
      BlankJoin(a[1..], b);
      assert (a + b)[1..] == a[1..] + b;
    }
  }

  lemma {:induction false} TabsBlank(n: nat)
    ensures Blank(Tabs(n))
  {
    if n == 0 {
    } else {
      TabsBlank(n - 1);
      assert Tabs(n)[1..] == Tabs(n - 1);
    }
  }

  /** A line break and an indentation. */
  lemma {:induction false} BreakIndentBlank(depth: nat, fmt: bool)
    ensures Blank(Indent(depth, fmt)) && Blank(Break(fmt) + Indent(depth, fmt))
  {
    TabsBlank(depth);
    BlankJoin(Break(fmt), Indent(depth, fmt));
  }

  lemma {:induction false} SkipBlank(s: bytes, p: nat, t: bytes)
    requires At(s, p, t) && Blank(t) && Peek(s, p + |t|) > SPACE
    ensures Skip(s, p) == p + |t|
    decreases |t|
  {
    if t == [] {
    } else {
      SkipBlank(s, p + 1, t[1..]);
    }
  }

  /** No literal starts here. */
  lemma {:induction false} NotLiteral(s: bytes, p: nat)
    requires Peek(s, p) != NULL_TEXT[0] && Peek(s, p) != TRUE_TEXT[0] && Peek(s, p) != FALSE_TEXT[0]
    ensures !At(s, p, NULL_TEXT) && !At(s, p, TRUE_TEXT) && !At(s, p, FALSE_TEXT)
  {
    if At(s, p, NULL_TEXT) {
      AtFirst(s, p, NULL_TEXT);
    }
    if At(s, p, TRUE_TEXT) {
      AtFirst(s, p, TRUE_TEXT);
    }
    if At(s, p, FALSE_TEXT) {
      AtFirst(s, p, FALSE_TEXT);
    }
  }

  lemma {:induction false} OutsideStep(s: bytes, p: nat)
    requires Outside(s, p) && Peek(s, p) != QUOTE && Peek(s, p) != NUL
    ensures Outside(s, p + 1)
  {}

  // ---------- one rule for each way a container goes on ----------

  lemma {:induction false} ItemsLast(s: bytes, p: nat, v: Json, next: nat)
    requires Outside(s, p)
    requires ParseItem(s, p) == Ok(v, next) && Peek(s, Skip(s, next)) == RBRACKET
    ensures ParseItems(s, p) == Ok([v], Skip(s, next) + 1)
  {}

  lemma {:induction false} ItemsMore(s: bytes, p: nat, v: Json, next: nat, rest: seq<Json>, end: nat)
    requires Outside(s, p)
    requires ParseItem(s, p) == Ok(v, next) && Peek(s, Skip(s, next)) == COMMA
    requires ParseItems(s, Skip(s, next) + 1) == Ok(rest, end)
    ensures ParseItems(s, p) == Ok([v] + rest, end)
  {}

  lemma {:induction false} MemberIs(s: bytes, p: nat, name: bytes, afterName: nat, v: Json, next: nat)
    requires Outside(s, p)
    requires ParseString(s, Skip(s, p)) == Ok(name, afterName) && Peek(s, Skip(s, afterName)) == COLON
    requires ParseItem(s, Skip(s, afterName) + 1) == Ok(v, next)
    ensures ParseMember(s, p) == Ok(Member(Named(name), v), next)
  {}

  lemma {:induction false} MembersLast(s: bytes, p: nat, m: Member, next: nat)
    requires Outside(s, p)
    requires ParseMember(s, p) == Ok(m, next) && Peek(s, Skip(s, next)) == RBRACE
    ensures ParseMembers(s, p) == Ok([m], Skip(s, next) + 1)
  {}

  lemma {:induction false} MembersMore(s: bytes, p: nat, m: Member, next: nat, rest: seq<Member>, end: nat)
    requires Outside(s, p)
    requires ParseMember(s, p) == Ok(m, next) && Peek(s, Skip(s, next)) == COMMA
    requires ParseMembers(s, Skip(s, next) + 1) == Ok(rest, end)
    ensures ParseMembers(s, p) == Ok([m] + rest, end)
  {}

  lemma {:induction false} ArrayIs(s: bytes, p: nat, items: seq<Json>, end: nat)
    requires Outside(s, p) && Peek(s, p) == LBRACKET
    requires Peek(s, Skip(s, p + 1)) != RBRACKET && ParseItems(s, Skip(s, p + 1)) == Ok(items, end)
    ensures ParseValue(s, p) == Ok(Arr(items), end)
  {
    NotLiteral(s, p);
    assert ParseArray(s, p) == Ok(Arr(items), end);
  }

  lemma {:induction false} SkipTwice(s: bytes, p: nat)
    ensures Skip(s, Skip(s, p)) == Skip(s, p)
  {}

  lemma {:induction false} MemberSkip(s: bytes, p: nat)
    requires Outside(s, p)
    ensures ParseMember(s, Skip(s, p)) == ParseMember(s, p)
  {
    hide ParseString, ParseItem, Outside;
    SkipTwice(s, p);
  }

  /** Leading blanks do not matter. */
  lemma {:induction false} MembersSkip(s: bytes, p: nat)
    requires Outside(s, p)
    ensures ParseMembers(s, Skip(s, p)) == ParseMembers(s, p)
  {
    SkipTwice(s, p);
    MemberSkip(s, p);
    hide ParseMember, Skip;
  }

  /** What parse_value does at a brace that opens an object with members. */
  lemma {:induction false} ObjectParses(s: bytes, p: nat)
    requires Outside(s, p) && Peek(s, p) == LBRACE && Peek(s, Skip(s, p + 1)) != RBRACE
    requires !At(s, p, NULL_TEXT) && !At(s, p, TRUE_TEXT) && !At(s, p, FALSE_TEXT)
    ensures Outside(s, Skip(s, p + 1))
    ensures ParseValue(s, p) ==
      var r := ParseMembers(s, Skip(s, p + 1)); if r.Ok? then Ok(Obj(r.value), r.next) else Fail(r.at)
  {
    hide At, Skip, ParseMembers, ParseArray;
  }

  lemma {:induction false} ObjectIs(s: bytes, p: nat, members: seq<Member>, end: nat)
    requires Outside(s, p) && Peek(s, p) == LBRACE
    requires Peek(s, Skip(s, p + 1)) != RBRACE && ParseMembers(s, p + 1) == Ok(members, end)
    ensures ParseValue(s, p) == Ok(Obj(members), end)
  {
    NotLiteral(s, p);
    ObjectParses(s, p);
    hide At, Skip, ParseMembers, ParseObject, Outside;
    OutsideStep(s, p);
    MembersSkip(s, p + 1);
  }

  lemma {:induction false} EmptyContainer(s: bytes, p: nat)
    requires Outside(s, p)
    ensures Peek(s, p) == LBRACKET && Peek(s, Skip(s, p + 1)) == RBRACKET ==>
      ParseValue(s, p) == Ok(Arr([]), Skip(s, p + 1) + 1)
    ensures Peek(s, p) == LBRACE && Peek(s, Skip(s, p + 1)) == RBRACE ==>
      ParseValue(s, p) == Ok(Obj([]), Skip(s, p + 1) + 1)
  {
    if Peek(s, p) == LBRACKET || Peek(s, p) == LBRACE {
      NotLiteral(s, p);
    }
  }

  lemma {:induction false} SkipNothing(s: bytes, p: nat)
    requires Peek(s, p) > SPACE
    ensures Skip(s, p) == p
  {}

  /** Over one character and some blanks. */
  lemma {:induction false} SkipAfter(s: bytes, p: nat, c: byte, blank: bytes)
    requires At(s, p, [c] + blank) && c > SPACE && Blank(blank)
    requires Peek(s, p + 1 + |blank|) > SPACE
    ensures Peek(s, p) == c && Skip(s, p) == p && Skip(s, p + 1) == p + 1 + |blank|
  {
    AtSplit(s, p, [c], blank);
    AtFirst(s, p, [c]);
    SkipBlank(s, p + 1, blank);
  }

  lemma {:induction false} PrintFirst(v: Json, depth: nat, fmt: bool)
    ensures Print(v, depth, fmt)[0] > SPACE
    ensures Print(v, depth, fmt)[0] != RBRACKET && Print(v, depth, fmt)[0] != RBRACE
  {}

  /** A quoted string reads back, and the reader stops just after the closing quote. */
  lemma {:induction false} QuoteRoundTrip(esc: byte -> bytes, str: bytes, s: bytes, p: nat)
    requires forall c :: Spells(esc(c), c)
    requires At(s, p, Quoted(esc, str)) && Outside(s, p)
    ensures ParseString(s, p) == Ok(DropNul(str), p + |Quoted(esc, str)|)
  {
    var body := EscapeWith(esc, str);
    AtSplit(s, p, [QUOTE] + body, [QUOTE]);
    AtSplit(s, p, [QUOTE], body);
    AtFirst(s, p, [QUOTE]);
    AtFirst(s, p + 1 + |body|, [QUOTE]);
    BodyReadsBack(esc, str, s, p + 1);
  }

  lemma {:induction false} PrintedStringRoundTrip(str: bytes, s: bytes, p: nat)
    requires NulFree(str) && At(s, p, Quote(str)) && Outside(s, p)
    ensures ParseString(s, p) == Ok(str, p + |Quote(str)|)
  {
    EscapeByteAlwaysSpells();
    QuoteRoundTrip(EscapeByte, str, s, p);
  }

  lemma {:induction false} NumberRoundTrip(x: real, s: bytes, p: nat)
    requires At(s, p, FormatNumber(x)) && Outside(s, p) && Stops(s, p + |FormatNumber(x)|)
    ensures ParseValue(s, p) == Ok(Num(Reread(x)), p + |FormatNumber(x)|)
  {
    AtFirst(s, p, FormatNumber(x));
    NotLiteral(s, p);
    hide At, Stops, Outside, ReadNumber, NumberOf, Grammatical, Text, Accumulated, DoubleOf, RunEnd;
    NumberOfGrammatical(x);
    ReadsDecimal(NumberOf(x), s, p);
  }

  lemma {:induction false} OtherLiterals(s: bytes, p: nat, b: bool)
    requires Peek(s, p) == if b then TRUE_TEXT[0] else FALSE_TEXT[0]
    ensures !At(s, p, NULL_TEXT)
    ensures b ==> !At(s, p, FALSE_TEXT)
  {
    if At(s, p, NULL_TEXT) {
      AtFirst(s, p, NULL_TEXT);
    }
    if At(s, p, FALSE_TEXT) {
      AtFirst(s, p, FALSE_TEXT);
    }
  }

  lemma {:induction false} LiteralRoundTrip(v: Json, s: bytes, p: nat)
    requires v.Null? || v.Bool?
    requires At(s, p, Print(v, 0, false)) && Outside(s, p)
    ensures ParseValue(s, p) == Ok(v, p + |Print(v, 0, false)|)
  {
    hide At, Outside, ParseArray, ParseObject, ParseString, ReadNumber, DoubleAt;
    AtFirst(s, p, Print(v, 0, false));
    if v.Bool? {
      OtherLiterals(s, p, v.b);
    }
  }

  lemma {:induction false} StringRoundTrip(t: bytes, s: bytes, p: nat)
    requires NulFree(t) && At(s, p, Quote(t)) && Outside(s, p)
    ensures ParseValue(s, p) == Ok(Str(t), p + |Quote(t)|)
  {
    hide At, Outside, ParseArray, ParseObject, ParseString, ReadNumber, DoubleAt, NulFree;
    AtFirst(s, p, Quote(t));
    NotLiteral(s, p);
    PrintedStringRoundTrip(t, s, p);
  }

  lemma {:induction false} ScalarRoundTrip(v: Json, depth: nat, fmt: bool, s: bytes, p: nat)
    requires Proper(v) && !v.Arr? && !v.Obj?
    requires At(s, p, Print(v, depth, fmt))
    requires Outside(s, p)
    requires v.Num? ==> Stops(s, p + |Print(v, depth, fmt)|)
    ensures ParseValue(s, p) == Ok(AsReread(v), p + |Print(v, depth, fmt)|)
  {
    hide At, Outside, Stops, ParseValue, FormatNumber, Quote, NulFree, Reread, IsDouble;
    match v
    case Num(x) => NumberRoundTrip(x, s, p);
    case Str(t) => StringRoundTrip(t, s, p);
    case _ => LiteralRoundTrip(v, s, p);
  }

  // ---------- layouts: where a reader finds the parts of a container's text ----------

  /** From p, blanks lead to a value's text, which ends where no number would go on. */
  predicate ItemLaid(v: Json, depth: nat, fmt: bool, s: bytes, p: nat) {
    At(s, Skip(s, p), PrintNested(v, depth, fmt)) && Stops(s, ItemEnd(v, depth, fmt, s, p))
  }

  function ItemEnd(v: Json, depth: nat, fmt: bool, s: bytes, p: nat): nat {
    Skip(s, p) + |PrintNested(v, depth, fmt)|
  }

  /** From p, the items and their commas follow, up to the bracket before end. */
  predicate ItemsLaid(items: seq<Json>, depth: nat, fmt: bool, s: bytes, p: nat, end: nat)
    requires items != []
  {
    var q := Skip(s, ItemEnd(items[0], depth, fmt, s, p));
    && ItemLaid(items[0], depth, fmt, s, p)
    && if |items| == 1 then Peek(s, q) == RBRACKET && end == q + 1
       else Peek(s, q) == COMMA && ItemsLaid(items[1..], depth, fmt, s, q + 1, end)
  }

  /** The position of the colon after the name that blanks from p lead to. */
  function ColonAt(m: Member, s: bytes, p: nat): nat {
    Skip(s, Skip(s, p) + |KeyText(m.key)|)
  }

  predicate MemberLaid(m: Member, depth: nat, fmt: bool, s: bytes, p: nat) {
    var c := ColonAt(m, s, p);
    At(s, Skip(s, p), KeyText(m.key)) && Peek(s, c) == COLON && ItemLaid(m.value, depth, fmt, s, c + 1)
  }

  function MemberEnd(m: Member, depth: nat, fmt: bool, s: bytes, p: nat): nat {
    ItemEnd(m.value, depth, fmt, s, ColonAt(m, s, p) + 1)
  }

  /** From p, the members and their commas follow, up to the brace before end. */
  predicate MembersLaid(members: seq<Member>, depth: nat, fmt: bool, s: bytes, p: nat, end: nat)
    requires members != []
  {
    var q := Skip(s, MemberEnd(members[0], depth, fmt, s, p));
    && MemberLaid(members[0], depth, fmt, s, p)
    && if |members| == 1 then Peek(s, q) == RBRACE && end == q + 1
       else Peek(s, q) == COMMA && MembersLaid(members[1..], depth, fmt, s, q + 1, end)
  }

  // ---------- printed text is laid out ----------

  lemma {:induction false} NestedIs(v: Json, depth: nat, fmt: bool)
    ensures PrintNested(v, depth, fmt) == Print(v, depth + 1, fmt)
  {}

  lemma {:induction false} NestedFirst(v: Json, depth: nat, fmt: bool)
    ensures PrintNested(v, depth, fmt)[0] > SPACE
    ensures PrintNested(v, depth, fmt)[0] != RBRACKET
  {
    PrintFirst(v, depth + 1, fmt);
  }

  lemma {:induction false} ItemsFirst(items: seq<Json>, depth: nat, fmt: bool)
    requires items != []
    ensures PrintItems(items, depth, fmt) != []
    ensures PrintItems(items, depth, fmt)[0] > SPACE && PrintItems(items, depth, fmt)[0] != RBRACKET
  {
    NestedFirst(items[0], depth, fmt);
  }

  /** Over a separator that begins with c and goes on with blanks. */
  lemma {:induction false} SeparatorParts(c: byte, sep: bytes, t: bytes, s: bytes, p: nat)
    requires sep != [] && sep[0] == c && c > SPACE && Blank(sep[1..])
    requires At(s, p, sep) && At(s, p + |sep|, t) && t != [] && t[0] > SPACE
    ensures Peek(s, p) == c && Skip(s, p) == p && Skip(s, p + 1) == p + |sep|
  {
    assert sep == [c] + sep[1..];
    AtFirst(s, p + |sep|, t);
    SkipAfter(s, p, c, sep[1..]);
  }

  lemma {:induction false} LayLastItem(v: Json, depth: nat, fmt: bool, s: bytes, p: nat)
    requires At(s, Skip(s, p), PrintNested(v, depth, fmt) + [RBRACKET])
    ensures ItemsLaid([v], depth, fmt, s, p, ItemEnd(v, depth, fmt, s, p) + 1)
  {
    hide At, Skip, PrintNested;
    AtSplit(s, Skip(s, p), PrintNested(v, depth, fmt), [RBRACKET]);
    AtFirst(s, ItemEnd(v, depth, fmt, s, p), [RBRACKET]);
    SkipNothing(s, ItemEnd(v, depth, fmt, s, p));
  }

  /** The first of several items, its comma, and the text of the others. */
  lemma {:induction false} LayNextItem(items: seq<Json>, depth: nat, fmt: bool, s: bytes, p: nat)
    requires |items| > 1 && At(s, Skip(s, p), PrintItems(items, depth, fmt) + [RBRACKET])
    ensures ItemLaid(items[0], depth, fmt, s, p)
    ensures var q := ItemEnd(items[0], depth, fmt, s, p);
      && Peek(s, q) == COMMA && Skip(s, q) == q && Skip(s, q + 1) == q + |ItemSeparator(fmt)|
      && At(s, q + |ItemSeparator(fmt)|, PrintItems(items[1..], depth, fmt) + [RBRACKET])
  {
    var t, sep, rest := PrintNested(items[0], depth, fmt), ItemSeparator(fmt), PrintItems(items[1..], depth, fmt);
    assert PrintItems(items, depth, fmt) == t + sep + rest;
    hide At, Skip, PrintNested, PrintItems, ItemSeparator;
    Assoc4(t, sep, rest, [RBRACKET]);
    AtSplit(s, Skip(s, p), t, sep + (rest + [RBRACKET]));
    AtSplit(s, Skip(s, p) + |t|, sep, rest + [RBRACKET]);
    ItemsFirst(items[1..], depth, fmt);
    SeparatorIs(fmt);
    SeparatorParts(COMMA, sep, rest + [RBRACKET], s, Skip(s, p) + |t|);
  }

  lemma {:induction false} SeparatorIs(fmt: bool)
    ensures var sep := ItemSeparator(fmt); sep != [] && sep[0] == COMMA && Blank(sep[1..])
  {}

  lemma {:induction false} ItemsLaidMore(items: seq<Json>, depth: nat, fmt: bool, s: bytes, p: nat, end: nat)
    requires |items| > 1 && ItemLaid(items[0], depth, fmt, s, p)
    requires var q := Skip(s, ItemEnd(items[0], depth, fmt, s, p));
      Peek(s, q) == COMMA && ItemsLaid(items[1..], depth, fmt, s, q + 1, end)
    ensures ItemsLaid(items, depth, fmt, s, p, end)
  {}

  lemma {:induction false} LayItems(items: seq<Json>, depth: nat, fmt: bool, s: bytes, p: nat)
    requires items != [] && At(s, Skip(s, p), PrintItems(items, depth, fmt) + [RBRACKET])
    ensures ItemsLaid(items, depth, fmt, s, p, Skip(s, p) + |PrintItems(items, depth, fmt)| + 1)
    decreases |items|
  {
    hide At, Skip, PrintNested, ItemLaid, ItemsLaid, ItemSeparator;
    if |items| == 1 {
      LayLastItem(items[0], depth, fmt, s, p);
      Single(items);
    } else {
      var q := ItemEnd(items[0], depth, fmt, s, p);
      LayNextItem(items, depth, fmt, s, p);
      LayItems(items[1..], depth, fmt, s, q + 1);
      ItemsLaidMore(items, depth, fmt, s, p, Skip(s, p) + |PrintItems(items, depth, fmt)| + 1);
    }
  }

  /** Blanks up to a brace do not continue a number. */
  lemma {:induction false} BlankStops(s: bytes, p: nat, t: bytes)
    requires Blank(t) && At(s, p, t + [RBRACE])
    ensures Stops(s, p) && Skip(s, p) == p + |t| && Peek(s, p + |t|) == RBRACE
  {
    AtSplit(s, p, t, [RBRACE]);
    SkipBlank(s, p, t);
  }

  lemma {:induction false} KeyFirst(key: Key)
    requires key.Named?
    ensures KeyText(key) != [] && KeyText(key)[0] == QUOTE
  {}

  lemma {:induction false} BlankTail(fmt: bool)
    ensures Blank(NameSeparator(fmt)[1..]) && Blank(ItemSeparator(fmt)[1..])
  {}

  /** Blanks, a quoted name, a separator and a value lay out a member. */
  lemma {:induction false} LayPieces(m: Member, depth: nat, fmt: bool, s: bytes, p: nat, blank: bytes)
    requires m.key.Named? && Blank(blank)
    requires At(s, p, blank + (KeyText(m.key) + (NameSeparator(fmt) + PrintNested(m.value, depth, fmt))))
    requires Stops(s, p + |blank| + |KeyText(m.key)| + |NameSeparator(fmt)| + |PrintNested(m.value, depth, fmt)|)
    ensures MemberLaid(m, depth, fmt, s, p)
    ensures MemberEnd(m, depth, fmt, s, p)
      == p + |blank| + |KeyText(m.key)| + |NameSeparator(fmt)| + |PrintNested(m.value, depth, fmt)|
    ensures Peek(s, Skip(s, p)) == QUOTE
  {
    hide At, Skip, Print, PrintNested, KeyText;
    var name, sep, t := KeyText(m.key), NameSeparator(fmt), PrintNested(m.value, depth, fmt);
    BlankTail(fmt);
    AtSplit(s, p, blank, name + (sep + t));
    AtSplit(s, p + |blank|, name, sep + t);
    AtSplit(s, p + |blank| + |name|, sep, t);
    KeyFirst(m.key);
    AtFirst(s, p + |blank|, name);
    SkipBlank(s, p, blank);
    NestedFirst(m.value, depth, fmt);
    SeparatorParts(COLON, sep, t, s, p + |blank| + |name|);
  }

  /** After a line break at p comes a member; its text ends at the end of its layout. */
  lemma {:induction false} LayMember(m: Member, depth: nat, fmt: bool, s: bytes, p: nat)
    requires m.key.Named? && At(s, p, Break(fmt) + PrintMember(m, depth, fmt))
    requires Stops(s, p + |Break(fmt)| + |PrintMember(m, depth, fmt)|)
    ensures MemberLaid(m, depth, fmt, s, p)
    ensures MemberEnd(m, depth, fmt, s, p) == p + |Break(fmt)| + |PrintMember(m, depth, fmt)|
    ensures Peek(s, Skip(s, p)) == QUOTE
  {
    hide At, Skip, Print, PrintNested, KeyText, MemberLaid, MemberEnd, Blank;
    var ind := Indent(depth + 1, fmt);
    Assoc4(ind, KeyText(m.key), NameSeparator(fmt), PrintNested(m.value, depth, fmt));
    Assoc(Break(fmt), ind, KeyText(m.key) + (NameSeparator(fmt) + PrintNested(m.value, depth, fmt)));
    BreakIndentBlank(depth + 1, fmt);
    LayPieces(m, depth, fmt, s, p, Break(fmt) + ind);
  }

  function ObjectTail(depth: nat, fmt: bool): bytes {
    Indent(depth, fmt) + [RBRACE]
  }

  lemma {:induction false} LastMemberGroups(brk: bytes, t: bytes, ind: bytes, close: bytes)
    ensures brk + ((t + brk) + (ind + close)) == (brk + t) + ((brk + ind) + close)
  {
    Assoc(t, brk, ind + close);
    Assoc(brk, t, brk + (ind + close));
    Assoc(brk, ind, close);
  }

  lemma {:induction false} MoreMembersGroups(brk: bytes, t: bytes, comma: bytes, rest: bytes, tail: bytes)
    ensures brk + ((t + (comma + brk) + rest) + tail) == (brk + t) + (comma + (brk + (rest + tail)))
  {
    Assoc4(t, comma + brk, rest, tail);
    Assoc(comma, brk, rest + tail);
    Assoc(brk, t, comma + (brk + (rest + tail)));
  }

  predicate AllNamed(members: seq<Member>) {
    forall i :: 0 <= i < |members| ==> members[i].key.Named?
  }

  lemma {:induction false} LayLastMember(m: Member, depth: nat, fmt: bool, s: bytes, p: nat)
    requires m.key.Named?
    requires At(s, p, (Break(fmt) + PrintMember(m, depth, fmt)) + ((Break(fmt) + Indent(depth, fmt)) + [RBRACE]))
    ensures MembersLaid([m], depth, fmt, s, p,
      p + |Break(fmt)| + |PrintMember(m, depth, fmt)| + |Break(fmt)| + |Indent(depth, fmt)| + 1)
    ensures Peek(s, Skip(s, p)) == QUOTE
  {
    hide At, PrintMember, MemberLaid, MemberEnd, Indent;
    var t, tail := Break(fmt) + PrintMember(m, depth, fmt), Break(fmt) + Indent(depth, fmt);
    AtSplit(s, p, t, tail + [RBRACE]);
    BreakIndentBlank(depth, fmt);
    BlankStops(s, p + |t|, tail);
    LayMember(m, depth, fmt, s, p);
  }

  /** The first of several members, its comma, and the text of the others. */
  lemma {:induction false} LayNextMember(members: seq<Member>, depth: nat, fmt: bool, s: bytes, p: nat)
    requires AllNamed(members)
    requires |members| > 1 && At(s, p, Break(fmt) + (PrintMembers(members, depth, fmt) + ObjectTail(depth, fmt)))
    ensures MemberLaid(members[0], depth, fmt, s, p) && Peek(s, Skip(s, p)) == QUOTE
    ensures var q := MemberEnd(members[0], depth, fmt, s, p);
      && Peek(s, q) == COMMA && Skip(s, q) == q
      && At(s, q + 1, Break(fmt) + (PrintMembers(members[1..], depth, fmt) + ObjectTail(depth, fmt)))
      && q == p + |Break(fmt)| + |PrintMember(members[0], depth, fmt)|
  {
    hide PrintMember, MemberLaid, MemberEnd, ObjectTail, Break;
    var t, brk, tail := PrintMember(members[0], depth, fmt), Break(fmt), ObjectTail(depth, fmt);
    var rest := brk + (PrintMembers(members[1..], depth, fmt) + tail);
    MoreMembersGroups(brk, t, [COMMA], PrintMembers(members[1..], depth, fmt), tail);
    AtSplit(s, p, brk + t, [COMMA] + rest);
    AtSplit(s, p + |brk + t|, [COMMA], rest);
    LayMember(members[0], depth, fmt, s, p);
  }

  lemma {:induction false} MembersLaidMore(members: seq<Member>, depth: nat, fmt: bool, s: bytes, p: nat, end: nat)
    requires |members| > 1 && MemberLaid(members[0], depth, fmt, s, p)
    requires var q := Skip(s, MemberEnd(members[0], depth, fmt, s, p));
      Peek(s, q) == COMMA && MembersLaid(members[1..], depth, fmt, s, q + 1, end)
    ensures MembersLaid(members, depth, fmt, s, p, end)
  {}

  lemma {:induction false} LayMembers(members: seq<Member>, depth: nat, fmt: bool, s: bytes, p: nat)
    requires AllNamed(members)
    requires members != [] && At(s, p, Break(fmt) + (PrintMembers(members, depth, fmt) + ObjectTail(depth, fmt)))
    ensures MembersLaid(members, depth, fmt, s, p,
      p + |Break(fmt)| + |PrintMembers(members, depth, fmt)| + |ObjectTail(depth, fmt)|)
    ensures Peek(s, Skip(s, p)) == QUOTE
    decreases |members|
  {
    hide At, PrintMember, MemberLaid, MemberEnd, Skip, Indent, Break;
    if |members| == 1 {
      LastMemberGroups(Break(fmt), PrintMember(members[0], depth, fmt), Indent(depth, fmt), [RBRACE]);
      LayLastMember(members[0], depth, fmt, s, p);
      Single(members);
    } else {
      LayNextMember(members, depth, fmt, s, p);
      LayMembers(members[1..], depth, fmt, s, MemberEnd(members[0], depth, fmt, s, p) + 1);
      MembersLaidMore(members, depth, fmt, s, p,
                      p + |Break(fmt)| + |PrintMembers(members, depth, fmt)| + |ObjectTail(depth, fmt)|);
    }
  }

  // ---------- the round trip ----------

  /** Wherever the printed text of a value stands, formatted or not and at any depth, the parser
      rebuilds the value, each number as the double its text is read as, and consumes exactly that text,
      provided what follows a number does not continue it. */
  lemma {:induction false} PrintParse(v: Json, depth: nat, fmt: bool, s: bytes, p: nat)
    requires Proper(v) && At(s, p, Print(v, depth, fmt)) && Outside(s, p)
    requires v.Num? ==> Stops(s, p + |Print(v, depth, fmt)|)
    ensures ParseValue(s, p) == Ok(AsReread(v), p + |Print(v, depth, fmt)|)
    decreases v, 0
  {
    if v.Arr? {
      ArrayRoundTrip(v.items, depth, fmt, s, p);
    } else if v.Obj? {
      ObjectRoundTrip(v.members, depth, fmt, s, p);
    } else {
      ScalarRoundTrip(v, depth, fmt, s, p);
    }
  }

  lemma {:induction false} ArrayRoundTrip(items: seq<Json>, depth: nat, fmt: bool, s: bytes, p: nat)
    requires Proper(Arr(items)) && At(s, p, Print(Arr(items), depth, fmt)) && Outside(s, p)
    ensures ParseValue(s, p) == Ok(AsReread(Arr(items)), p + |Print(Arr(items), depth, fmt)|)
    decreases items, 2
  {
    var body := PrintItems(items, depth, fmt);
    Assoc([LBRACKET], body, [RBRACKET]);
    hide At, Outside, Skip, ItemsLaid, ParseItems, ParseValue;
    AtSplit(s, p, [LBRACKET], body + [RBRACKET]);
    AtFirst(s, p, [LBRACKET]);
    OutsideStep(s, p);
    AtFirst(s, p + 1, body + [RBRACKET]);
    if items == [] {
      SkipNothing(s, p + 1);
      EmptyContainer(s, p);
    } else {
      ItemsFirst(items, depth, fmt);
      SkipNothing(s, p + 1);
      LayItems(items, depth, fmt, s, p + 1);
      ItemsRoundTrip(items, depth, fmt, s, p + 1, p + 1 + |body| + 1);
      ArrayIs(s, p, ItemsAsReread(items), p + 1 + |body| + 1);
    }
  }

  lemma {:induction false} ProperItems(items: seq<Json>)
    requires items != [] && Proper(Arr(items))
    ensures Proper(items[0]) && Proper(Arr(items[1..]))
  {}

  lemma {:induction false} ProperMembers(members: seq<Member>)
    requires members != [] && Proper(Obj(members))
    ensures members[0].key.Named? && KeyNulFree(members[0].key) && Proper(members[0].value) && Proper(Obj(members[1..]))
  {}

  lemma {:induction false} Last(items: seq<Json>)
    requires |items| == 1
    ensures ItemsAsReread(items) == [AsReread(items[0])]
  {}

  lemma {:induction false} LastMember(members: seq<Member>)
    requires |members| == 1
    ensures MembersAsReread(members) == [MemberAsReread(members[0])]
  {}

  lemma {:induction false} ItemRoundTrip(v: Json, depth: nat, fmt: bool, s: bytes, p: nat)
    requires Proper(v) && Outside(s, p) && ItemLaid(v, depth, fmt, s, p)
    ensures ParseItem(s, p) == Ok(AsReread(v), ItemEnd(v, depth, fmt, s, p))
    decreases v, 1
  {
    NestedIs(v, depth, fmt);
    hide Print, PrintNested, At, Skip, Outside, Stops, ParseValue, AsReread;
    PrintParse(v, depth + 1, fmt, s, Skip(s, p));
  }

  lemma {:induction false} ItemsRoundTrip(items: seq<Json>, depth: nat, fmt: bool, s: bytes, p: nat, end: nat)
    requires items != [] && Proper(Arr(items))
    requires Outside(s, p) && ItemsLaid(items, depth, fmt, s, p, end)
    ensures ParseItems(s, p) == Ok(ItemsAsReread(items), end)
    decreases items, 1
  {
    hide Print, PrintNested, ParseItems, Outside, Skip;
    var next := ItemEnd(items[0], depth, fmt, s, p);
    ProperItems(items);
    ItemRoundTrip(items[0], depth, fmt, s, p);
    if |items| == 1 {
      ItemsLast(s, p, AsReread(items[0]), next);
      Last(items);
    } else {
      OutsideStep(s, Skip(s, next));
      ItemsRoundTrip(items[1..], depth, fmt, s, Skip(s, next) + 1, end);
      ItemsMore(s, p, AsReread(items[0]), next, ItemsAsReread(items[1..]), end);
    }
  }

  lemma {:induction false} EmptyObjectGroups(brk: bytes, ind: bytes, close: bytes)
    ensures brk + ([] + (ind + close)) == (brk + ind) + close
  {
    Assoc(brk, ind, close);
    assert [] + (ind + close) == ind + close;
  }

  lemma {:induction false} ObjectGroups(members: seq<Member>, depth: nat, fmt: bool)
    ensures Print(Obj(members), depth, fmt)
      == [LBRACE] + (Break(fmt) + (PrintMembers(members, depth, fmt) + ObjectTail(depth, fmt)))
  {
    Assoc4([LBRACE] + Break(fmt), PrintMembers(members, depth, fmt), Indent(depth, fmt), [RBRACE]);
    Assoc([LBRACE], Break(fmt), PrintMembers(members, depth, fmt) + ObjectTail(depth, fmt));
  }

  lemma {:induction false} EmptyObjectRoundTrip(depth: nat, fmt: bool, s: bytes, p: nat)
    requires At(s, p, [LBRACE] + (Break(fmt) + ([] + ObjectTail(depth, fmt)))) && Outside(s, p)
    ensures ParseValue(s, p) == Ok(Obj([]), p + |Print(Obj([]), depth, fmt)|)
  {
    EmptyObjectGroups(Break(fmt), Indent(depth, fmt), [RBRACE]);
    AtSplit(s, p, [LBRACE], (Break(fmt) + Indent(depth, fmt)) + [RBRACE]);
    BreakIndentBlank(depth, fmt);
    BlankStops(s, p + 1, Break(fmt) + Indent(depth, fmt));
    EmptyContainer(s, p);
  }

  lemma {:induction false} PrintedMembersRoundTrip(members: seq<Member>, depth: nat, fmt: bool, s: bytes, p: nat)
    requires members != [] && Proper(Obj(members)) && Outside(s, p)
    requires At(s, p, Break(fmt) + (PrintMembers(members, depth, fmt) + ObjectTail(depth, fmt)))
    ensures ParseMembers(s, p)
      == Ok(MembersAsReread(members), p + |Break(fmt)| + |PrintMembers(members, depth, fmt)| + |ObjectTail(depth, fmt)|)
    ensures Peek(s, Skip(s, p)) == QUOTE
    decreases members, 3
  {
    hide At, ParseMembers, MembersLaid, Print, PrintMembers, Outside, Skip;
    LayMembers(members, depth, fmt, s, p);
    MembersRoundTrip(members, depth, fmt, s, p,
                     p + |Break(fmt)| + |PrintMembers(members, depth, fmt)| + |ObjectTail(depth, fmt)|);
  }

  lemma {:induction false} ObjectRoundTrip(members: seq<Member>, depth: nat, fmt: bool, s: bytes, p: nat)
    requires Proper(Obj(members)) && At(s, p, Print(Obj(members), depth, fmt)) && Outside(s, p)
    ensures ParseValue(s, p) == Ok(AsReread(Obj(members)), p + |Print(Obj(members), depth, fmt)|)
    decreases members, 4
  {
    ObjectGroups(members, depth, fmt);
    if members == [] {
      EmptyObjectRoundTrip(depth, fmt, s, p);
    } else {
      var t := Break(fmt) + (PrintMembers(members, depth, fmt) + ObjectTail(depth, fmt));
      AtSplit(s, p, [LBRACE], t);
      PrintedMembersRoundTrip(members, depth, fmt, s, p + 1);
      ObjectIs(s, p, MembersAsReread(members), p + 1 + |t|);
    }
  }

  lemma {:induction false} MemberRoundTrip(m: Member, depth: nat, fmt: bool, s: bytes, p: nat)
    requires m.key.Named? && KeyNulFree(m.key) && Proper(m.value) && Outside(s, p) && MemberLaid(m, depth, fmt, s, p)
    ensures ParseMember(s, p) == Ok(MemberAsReread(m), MemberEnd(m, depth, fmt, s, p))
    decreases m, 1
  {
    hide At, Skip, Print, PrintNested, Quote, Outside, ParseString, ParseItem, ParseMember, ItemLaid, ItemEnd, AsReread;
    PrintedStringRoundTrip(m.key.name, s, Skip(s, p));
    OutsideStep(s, ColonAt(m, s, p));
    ItemRoundTrip(m.value, depth, fmt, s, ColonAt(m, s, p) + 1);
    MemberIs(s, p, m.key.name, Skip(s, p) + |KeyText(m.key)|, AsReread(m.value), MemberEnd(m, depth, fmt, s, p));
  }

  lemma {:induction false} MembersRoundTrip(members: seq<Member>, depth: nat, fmt: bool, s: bytes, p: nat, end: nat)
    requires members != [] && Proper(Obj(members))
    requires Outside(s, p) && MembersLaid(members, depth, fmt, s, p, end)
    ensures ParseMembers(s, p) == Ok(MembersAsReread(members), end)
    decreases members, 2
  {
    hide MemberEnd, MemberLaid, ParseMembers, Outside, Skip;
    var next := MemberEnd(members[0], depth, fmt, s, p);
    ProperMembers(members);
    MemberRoundTrip(members[0], depth, fmt, s, p);
    if |members| == 1 {
      MembersLast(s, p, MemberAsReread(members[0]), next);
      LastMember(members);
    } else {
      OutsideStep(s, Skip(s, next));
      MembersRoundTrip(members[1..], depth, fmt, s, Skip(s, next) + 1, end);
      MembersMore(s, p, MemberAsReread(members[0]), next, MembersAsReread(members[1..]), end);
    }
  }

  // ---------- whole texts ----------

  lemma {:induction false} TameConcat3(a: bytes, b: bytes, c: bytes)
    requires Tame(a) && Tame(b) && Tame(c)
    ensures Tame(a + b + c)
  {
    TameConcat(a, b);
    TameConcat(a + b, c);
  }

  lemma {:induction false} TabsTame(n: nat)
    ensures Tame(Tabs(n))
  {
    if n == 0 {
    } else {
      TabsTame(n - 1);
      assert Tabs(n)[1..] == Tabs(n - 1);
    }
  }

  /** Printed text contains only complete escapes. */
  lemma {:induction false} PrintTame(v: Json, depth: nat, fmt: bool)
    ensures Tame(Print(v, depth, fmt))
    decreases v, 0
  {
    match v
    case Num(x) => TamePlain(FormatNumber(x));
    case Str(t) => QuoteTame(t);
    case Arr(items) =>
      ItemsTame(items, depth, fmt);
      TameConcat3([LBRACKET], PrintItems(items, depth, fmt), [RBRACKET]);
    case Obj(members) =>
      MembersTame(members, depth, fmt);
      TabsTame(depth);
      TameConcat3([LBRACE], Break(fmt), PrintMembers(members, depth, fmt));
      TameConcat3([LBRACE] + Break(fmt) + PrintMembers(members, depth, fmt), Indent(depth, fmt), [RBRACE]);
    case Null => TamePlain(NULL_TEXT);
    case Bool(b) => TamePlain(if b then TRUE_TEXT else FALSE_TEXT);
  }

  lemma {:induction false} ItemsTame(items: seq<Json>, depth: nat, fmt: bool)
    ensures Tame(PrintItems(items, depth, fmt))
    decreases items, 1
  {
    if items == [] {
    } else {
      PrintTame(items[0], depth + 1, fmt);
      assert PrintNested(items[0], depth, fmt) == Print(items[0], depth + 1, fmt);
      if |items| > 1 {
        ItemsTame(items[1..], depth, fmt);
        TamePlain(ItemSeparator(fmt));
        TameConcat3(PrintNested(items[0], depth, fmt), ItemSeparator(fmt), PrintItems(items[1..], depth, fmt));
      }
    }
  }

  lemma {:induction false} KeyTame(key: Key)
    ensures Tame(KeyText(key))
  {
    if key.Named? {
      QuoteTame(key.name);
    }
  }

  lemma {:induction false} MemberTame(m: Member, depth: nat, fmt: bool)
    ensures Tame(PrintMember(m, depth, fmt))
    decreases m, 1
  {
    PrintTame(m.value, depth + 1, fmt);
    KeyTame(m.key);
    TabsTame(depth + 1);
    TameConcat3(Indent(depth + 1, fmt), KeyText(m.key), NameSeparator(fmt));
    TameConcat(Indent(depth + 1, fmt) + KeyText(m.key) + NameSeparator(fmt), PrintNested(m.value, depth, fmt));
  }

  lemma {:induction false} MembersTame(members: seq<Member>, depth: nat, fmt: bool)
    ensures Tame(PrintMembers(members, depth, fmt))
    decreases members, 2
  {
    if members == [] {
    } else {
      MemberTame(members[0], depth, fmt);
      if |members| == 1 {
        TameConcat(PrintMember(members[0], depth, fmt), Break(fmt));
      } else {
        MembersTame(members[1..], depth, fmt);
        TameConcat([COMMA], Break(fmt));
        TameConcat3(PrintMember(members[0], depth, fmt), [COMMA] + Break(fmt), PrintMembers(members[1..], depth, fmt));
      }
    }
  }

  /** cJSON_Parse of what cJSON_Print or cJSON_PrintUnformatted returns is the printed value, each number
      as the double its text is read as. */
  lemma {:induction false} PrintParseWhole(v: Json, fmt: bool)
    requires Proper(v)
    ensures Outside(Print(v, 0, fmt) + [NUL], 0)
    ensures Parse(Print(v, 0, fmt) + [NUL]) == Ok(AsReread(v), |Print(v, 0, fmt)|)
  {
    hide Print, At, Outside, Inside, Tame, Skip, ParseValue;
    var t := Print(v, 0, fmt);
    var s := t + [NUL];
    PrintTame(v, 0, fmt);
    TameText(t);
    AtStart(t);
    PrintFirst(v, 0, fmt);
    AtFirst(s, 0, t);
    SkipNothing(s, 0);
    PrintParse(v, 0, fmt, s, 0);
  }

  /** The two forms together never confuse two values, but for numbers whose texts are read as the same. */
  lemma {:induction false} PrintInjective(v: Json, w: Json, fmt: bool, fmt': bool)
    requires Proper(v) && Proper(w) && Print(v, 0, fmt) == Print(w, 0, fmt')
    ensures AsReread(v) == AsReread(w)
  {
    PrintParseWhole(v, fmt);
    PrintParseWhole(w, fmt');
  }
}
