/** Formatting is only white space: the two printed forms have the same tokens. */
module JsonLayout {
  import opened Bytes
  import opened Seqs
  import opened JsonString
  import opened NumberFormat
  import opened JsonTree

  /** Where a reader of JSON text stands with respect to string literals. */
  datatype Place = Between | InLiteral | AfterBackslash

  /** The white space of section 2 of RFC 4627. */
  predicate IsWhite(c: byte) {
    c == SPACE || c == TAB || c == LINEFEED || c == RETURN
  }

  function Next(c: byte, place: Place): Place {
    match place
    case Between => if c == QUOTE then InLiteral else Between
    case InLiteral => if c == QUOTE then Between else if c == BACKSLASH then AfterBackslash else InLiteral
    case AfterBackslash => InLiteral
  }

  function Reach(t: bytes, place: Place): Place {
    if t == [] then place else Reach(t[1..], Next(t[0], place))
  }

  /** The text without the white space outside its string literals. */
  function Strip(t: bytes, place: Place): bytes {
    if t == [] then []
    else if place == Between && IsWhite(t[0]) then Strip(t[1..], place)
    else [t[0]] + Strip(t[1..], Next(t[0], place))
  }

  /** t is whole tokens, and u is what remains of it. */
  predicate Erases(t: bytes, u: bytes) {
    Strip(t, Between) == u && Reach(t, Between) == Between
  }

  /** The same on both sides of a head. */
  lemma {:induction false} HeadBefore(t: bytes, rest: bytes)
    requires t != []
    ensures t + rest == [t[0]] + (t[1..] + rest)
  {
    HeadTail(t);
    Assoc([t[0]], t[1..], rest);
  }

  lemma {:induction false} StripOne(c: byte, t: bytes, place: Place)
    ensures Strip([c] + t, place) ==
      (if place == Between && IsWhite(c) then [] else [c]) + Strip(t, Next(c, place))
    ensures Reach([c] + t, place) == Reach(t, Next(c, place))
  {
    ConsTail(c, t);
    NothingBefore(Strip(t, place));
  }

  lemma {:induction false} StripConcat(a: bytes, b: bytes, place: Place)
    ensures Strip(a + b, place) == Strip(a, place) + Strip(b, Reach(a, place))
    ensures Reach(a + b, place) == Reach(b, Reach(a, place))
    decreases |a|
  {
    if a == [] {
      NothingBefore(b);
      NothingBefore(Strip(b, place));
    } else {
      hide Strip, Next, IsWhite;
      var place' := Next(a[0], place);
      StripConcat(a[1..], b, place');
      HeadTail(a);
      HeadBefore(a, b);
      StripOne(a[0], a[1..], place);
      StripOne(a[0], a[1..] + b, place);
      var first := if place == Between && IsWhite(a[0]) then [] else [a[0]];
      Assoc(first, Strip(a[1..], place'), Strip(b, Reach(a[1..], place')));
    }
  }

  lemma {:induction false} ErasesConcat(a: bytes, a': bytes, b: bytes, b': bytes)
    requires Erases(a, a') && Erases(b, b')
    ensures Erases(a + b, a' + b')
  {
    StripConcat(a, b, Between);
  }

  /** Neither white space nor quotes. */
  lemma {:induction false} PlainStays(t: bytes)
    requires forall i :: 0 <= i < |t| ==> t[i] > SPACE && t[i] != QUOTE
    ensures Erases(t, t)
    decreases |t|
  {
    if t == [] {
    } else {
      PlainStays(t[1..]);
      assert t == [t[0]] + t[1..];
    }
  }

  lemma {:induction false} PairStays(c: byte)
    ensures Strip([BACKSLASH, c], InLiteral) == [BACKSLASH, c]
    ensures Reach([BACKSLASH, c], InLiteral) == InLiteral
  {
    assert [BACKSLASH, c][1..] == [c];
    assert Strip([c], AfterBackslash) == [c];
    assert Reach([c], AfterBackslash) == InLiteral;
  }

  lemma {:induction false} EscapeByteStays(c: byte)
    ensures Strip(EscapeByte(c), InLiteral) == EscapeByte(c)
    ensures Reach(EscapeByte(c), InLiteral) == InLiteral
  {
    var e := EscapeByte(c);
    if |e| > 1 {
      PairStays(e[1]);
      assert e == [BACKSLASH, e[1]] + e[2..];
      StripConcat([BACKSLASH, e[1]], e[2..], InLiteral);
      HexStays(e[2..]);
    }
  }

  lemma {:induction false} HexStays(t: bytes)
    requires forall i :: 0 <= i < |t| ==> IsHex(t[i])
    ensures Strip(t, InLiteral) == t && Reach(t, InLiteral) == InLiteral
    decreases |t|
  {
    if t == [] {
    } else {
      assert IsHex(t[0]);
      HexStays(t[1..]);
      assert t == [t[0]] + t[1..];
    }
  }

  lemma {:induction false} EscapeStays(str: bytes)
    ensures Strip(Escape(str), InLiteral) == Escape(str)
    ensures Reach(Escape(str), InLiteral) == InLiteral
  {
    if str == [] {
    } else {
      EscapeByteStays(str[0]);
      EscapeStays(str[1..]);
      StripConcat(EscapeByte(str[0]), Escape(str[1..]), InLiteral);
    }
  }

  lemma {:induction false} QuoteStays(str: bytes)
    ensures Erases(Quote(str), Quote(str))
  {
    EscapeStays(str);
    StripConcat([QUOTE], Escape(str), Between);
    StripConcat([QUOTE] + Escape(str), [QUOTE], Between);
  }

  lemma {:induction false} KeyStays(key: Key)
    ensures Erases(KeyText(key), KeyText(key))
  {
    if key.Named? {
      QuoteStays(key.name);
    } else {
      PlainStays([]);
    }
  }

  lemma {:induction false} IndentGoes(depth: nat, fmt: bool)
    ensures Erases(Indent(depth, fmt), []) && Erases(Break(fmt), [])
    ensures Erases(ItemSeparator(fmt), [COMMA]) && Erases(NameSeparator(fmt), [COLON])
  {
    TabsGo(depth);
    ErasesConcat([COMMA], [COMMA], [SPACE], []);
    ErasesConcat([COLON], [COLON], [TAB], []);
    assert [COMMA] + [SPACE] == [COMMA, SPACE] && [COLON] + [TAB] == [COLON, TAB];
  }

  lemma {:induction false} TabsGo(n: nat)
    ensures Erases(Tabs(n), [])
  {
    if n == 0 {
    } else {
      TabsGo(n - 1);
      assert Tabs(n)[1..] == Tabs(n - 1);
    }
  }

  lemma {:induction false} ErasesConcat3(a: bytes, a': bytes, b: bytes, b': bytes, c: bytes, c': bytes)
    requires Erases(a, a') && Erases(b, b') && Erases(c, c')
    ensures Erases(a + b + c, a' + b' + c')
  {
    ErasesConcat(a, a', b, b');
    ErasesConcat(a + b, a' + b', c, c');
  }

  /** Without the white space outside its string literals, either form of any value, at any depth,
      is the unformatted form. */
  lemma {:induction false} FormatIsLayout(v: Json, depth: nat, fmt: bool, depth': nat)
    ensures Erases(Print(v, depth, fmt), Print(v, depth', false))
    decreases v, 0
  {
    match v
    case Null => PlainStays(NULL_TEXT);
    case Bool(b) => PlainStays(if b then TRUE_TEXT else FALSE_TEXT);
    case Num(x) => PlainStays(FormatNumber(x));
    case Str(t) => QuoteStays(t);
    case Arr(items) =>
      ItemsLayout(items, depth, fmt, depth');
      PlainStays([LBRACKET]);
      PlainStays([RBRACKET]);
      ErasesConcat3([LBRACKET], [LBRACKET], PrintItems(items, depth, fmt), PrintItems(items, depth', false),
                    [RBRACKET], [RBRACKET]);
    case Obj(members) =>
      MembersLayout(members, depth, fmt, depth');
      ObjectLayout(members, depth, fmt, depth');
  }

  lemma {:induction false} ObjectLayout(members: seq<Member>, depth: nat, fmt: bool, depth': nat)
    requires Erases(PrintMembers(members, depth, fmt), PrintMembers(members, depth', false))
    ensures Erases(Print(Obj(members), depth, fmt), Print(Obj(members), depth', false))
  {
    var body, body' := PrintMembers(members, depth, fmt), PrintMembers(members, depth', false);
    IndentGoes(depth, fmt);
    PlainStays([LBRACE]);
    PlainStays([RBRACE]);
    ErasesConcat3([LBRACE], [LBRACE], Break(fmt), [], body, body');
    ErasesConcat3([LBRACE] + Break(fmt) + body, [LBRACE] + [] + body', Indent(depth, fmt), [], [RBRACE], [RBRACE]);
  }

  lemma {:induction false} ItemsLayout(items: seq<Json>, depth: nat, fmt: bool, depth': nat)
    ensures Erases(PrintItems(items, depth, fmt), PrintItems(items, depth', false))
    decreases items, 1
  {
    if items == [] {
    } else {
      FormatIsLayout(items[0], depth + 1, fmt, depth' + 1);
      if |items| > 1 {
        ItemsLayout(items[1..], depth, fmt, depth');
        IndentGoes(depth, fmt);
        ErasesConcat3(PrintNested(items[0], depth, fmt), PrintNested(items[0], depth', false),
                      ItemSeparator(fmt), [COMMA],
                      PrintItems(items[1..], depth, fmt), PrintItems(items[1..], depth', false));
      }
    }
  }

  lemma {:induction false} MemberLayout(m: Member, depth: nat, fmt: bool, depth': nat)
    ensures Erases(PrintMember(m, depth, fmt), PrintMember(m, depth', false))
    decreases m, 1
  {
    FormatIsLayout(m.value, depth + 1, fmt, depth' + 1);
    IndentGoes(depth + 1, fmt);
    KeyStays(m.key);
    ErasesConcat3(Indent(depth + 1, fmt), [], KeyText(m.key), KeyText(m.key), NameSeparator(fmt), [COLON]);
    ErasesConcat(Indent(depth + 1, fmt) + KeyText(m.key) + NameSeparator(fmt), [] + KeyText(m.key) + [COLON],
                 PrintNested(m.value, depth, fmt), PrintNested(m.value, depth', false));
  }

  lemma {:induction false} MembersLayout(members: seq<Member>, depth: nat, fmt: bool, depth': nat)
    ensures Erases(PrintMembers(members, depth, fmt), PrintMembers(members, depth', false))
    decreases members, 2
  {
    if members == [] {
    } else {
      var t, t', brk := PrintMember(members[0], depth, fmt), PrintMember(members[0], depth', false), Break(fmt);
      MemberLayout(members[0], depth, fmt, depth');
      IndentGoes(depth, fmt);
      if |members| == 1 {
        ErasesConcat(t, t', brk, []);
      } else {
        MembersLayout(members[1..], depth, fmt, depth');
        PlainStays([COMMA]);
        ErasesConcat([COMMA], [COMMA], brk, []);
        ErasesConcat3(t, t', [COMMA] + brk, [COMMA] + [],
                      PrintMembers(members[1..], depth, fmt), PrintMembers(members[1..], depth', false));
      }
    }
  }

  // ---------- where the white space goes ----------

  datatype Container = OfItems | OfMembers

  /** A line break and the indentation of the next line. */
  function NewLine(depth: nat): bytes {
    [LINEFEED] + Tabs(depth)
  }

  /** The containers that are open behind c, the innermost first. */
  function Opened(c: byte, open: seq<Container>): seq<Container> {
    if c == LBRACKET then [OfItems] + open
    else if c == LBRACE then [OfMembers] + open
    else if (c == RBRACKET || c == RBRACE) && open != [] then open[1..]
    else open
  }

  /** What a formatter writes for a character between literals, where next comes behind it: every member
      begins a line that is indented once for each open container, the brace that closes an object is on a
      line of its own, a space follows a comma between items and a tab follows a colon. */
  function Laid(c: byte, next: byte, open: seq<Container>): bytes {
    if c == LBRACE then [c] + (if next == RBRACE then [] else NewLine(|open| + 1))
    else if c == RBRACE then NewLine(if open == [] then 0 else |open| - 1) + [c]
    else if c == COLON then [c, TAB]
    else if c == COMMA then [c] + (if open != [] && open[0] == OfMembers then NewLine(|open|) else [SPACE])
    else [c]
  }

  /** The formatter, byte by byte. */
  function Pretty(t: bytes, place: Place, open: seq<Container>): bytes {
    if t == [] then []
    else if place != Between then [t[0]] + Pretty(t[1..], Next(t[0], place), open)
    else
      Laid(t[0], if |t| > 1 then t[1] else NUL, open) + Pretty(t[1..], Next(t[0], place), Opened(t[0], open))
  }

  /** Every byte of t is inside a literal that is open before it. */
  predicate Within(t: bytes, place: Place) {
    t == [] || (place != Between && Within(t[1..], Next(t[0], place)))
  }

  lemma {:induction false} WithinConcat(a: bytes, b: bytes, place: Place)
    requires Within(a, place) && Within(b, Reach(a, place))
    ensures Within(a + b, place)
    decreases |a|
  {
    if a == [] {
      assert a + b == b;
    } else {
      WithinConcat(a[1..], b, Next(a[0], place));
      assert (a + b)[1..] == a[1..] + b;
    }
  }

  lemma {:induction false} HexWithin(t: bytes)
    requires forall i :: 0 <= i < |t| ==> IsHex(t[i])
    ensures Within(t, InLiteral)
    decreases |t|
  {
    if t == [] {
    } else {
      assert IsHex(t[0]);
      HexWithin(t[1..]);
    }
  }

  lemma {:induction false} EscapeByteWithin(c: byte)
    ensures Within(EscapeByte(c), InLiteral)
  {
    var e := EscapeByte(c);
    if |e| > 1 {
      PairStays(e[1]);
      assert e == [BACKSLASH, e[1]] + e[2..];
      assert [BACKSLASH, e[1]][1..] == [e[1]];
      HexWithin(e[2..]);
      WithinConcat([BACKSLASH, e[1]], e[2..], InLiteral);
    } else {
      assert e[1..] == [];
    }
  }

  lemma {:induction false} EscapeWithin(str: bytes)
    ensures Within(Escape(str), InLiteral)
  {
    if str == [] {
    } else {
      EscapeByteWithin(str[0]);
      EscapeByteStays(str[0]);
      EscapeWithin(str[1..]);
      WithinConcat(EscapeByte(str[0]), Escape(str[1..]), InLiteral);
    }
  }

  lemma {:induction false} PrettyInside(c: byte, rest: bytes, place: Place, open: seq<Container>)
    requires place != Between
    ensures Pretty([c] + rest, place, open) == [c] + Pretty(rest, Next(c, place), open)
  {
    ConsTail(c, rest);
  }

  lemma {:induction false} PrettyFirst(c: byte, rest: bytes, open: seq<Container>)
    ensures Pretty([c] + rest, Between, open) ==
      Laid(c, if rest == [] then NUL else rest[0], open) + Pretty(rest, Next(c, Between), Opened(c, open))
  {
    ConsTail(c, rest);
  }

  lemma {:induction false} PrettyWithin(t: bytes, rest: bytes, place: Place, open: seq<Container>)
    requires Within(t, place)
    ensures Pretty(t + rest, place, open) == t + Pretty(rest, Reach(t, place), open)
    decreases |t|
  {
    hide Pretty, Next;
    if t == [] {
      NothingBefore(rest);
      NothingBefore(Pretty(rest, place, open));
    } else {
      var next := Next(t[0], place);
      PrettyWithin(t[1..], rest, next, open);
      HeadBefore(t, rest);
      PrettyInside(t[0], t[1..] + rest, place, open);
      HeadBefore(t, Pretty(rest, Reach(t[1..], next), open));
    }
  }

  lemma {:induction false} PrettyQuote(str: bytes, rest: bytes, open: seq<Container>)
    ensures Pretty(Quote(str) + rest, Between, open) == Quote(str) + Pretty(rest, Between, open)
  {
    hide Pretty, Escape, Within, Reach;
    var e := Escape(str);
    EscapeWithin(str);
    EscapeStays(str);
    LiteralRest(e, rest);
    PrettyFirst(QUOTE, e + ([QUOTE] + rest), open);
    PrettyWithin(e, [QUOTE] + rest, InLiteral, open);
    PrettyInside(QUOTE, rest, InLiteral, open);
    LiteralRest(e, Pretty(rest, Between, open));
    QuoteParts(str);
  }

  lemma {:induction false} QuoteParts(str: bytes)
    ensures Quote(str) == [QUOTE] + Escape(str) + [QUOTE]
  {}

  lemma {:induction false} LiteralRest(e: bytes, rest: bytes)
    ensures [QUOTE] + e + [QUOTE] + rest == [QUOTE] + (e + ([QUOTE] + rest))
  {
    Assoc4([QUOTE], e, [QUOTE], rest);
  }

  /** None of the characters the formatter acts on. */
  predicate Inert(t: bytes) {
    forall i :: 0 <= i < |t| ==>
      t[i] != QUOTE && t[i] != LBRACE && t[i] != RBRACE && t[i] != LBRACKET && t[i] != RBRACKET
      && t[i] != COMMA && t[i] != COLON
  }

  lemma {:induction false} PrettyInert(t: bytes, rest: bytes, open: seq<Container>)
    requires Inert(t)
    ensures Pretty(t + rest, Between, open) == t + Pretty(rest, Between, open)
    decreases |t|
  {
    hide Pretty;
    if t == [] {
      NothingBefore(rest);
      NothingBefore(Pretty(rest, Between, open));
    } else {
      assert Inert(t[1..]);
      PrettyInert(t[1..], rest, open);
      HeadBefore(t, rest);
      assert t[0] != QUOTE;
      PrettyFirst(t[0], t[1..] + rest, open);
      HeadBefore(t, Pretty(rest, Between, open));
    }
  }

  /** A text t that becomes u, whatever is behind it. */
  ghost predicate Becomes(t: bytes, u: bytes, open: seq<Container>) {
    forall rest: bytes {:trigger Pretty(t + rest, Between, open)} ::
      Pretty(t + rest, Between, open) == u + Pretty(rest, Between, open)
  }

  lemma {:induction false} BecomesConcat(t: bytes, u: bytes, t': bytes, u': bytes, open: seq<Container>)
    requires Becomes(t, u, open) && Becomes(t', u', open)
    ensures Becomes(t + t', u + u', open)
  {
    hide Pretty;
    forall rest: bytes
      ensures Pretty(t + t' + rest, Between, open) == u + u' + Pretty(rest, Between, open)
    {
      Assoc(t, t', rest);
      assert Pretty(t + (t' + rest), Between, open) == u + Pretty(t' + rest, Between, open);
      Assoc(u, u', Pretty(rest, Between, open));
    }
  }

  lemma {:induction false} NothingBecomes(open: seq<Container>)
    ensures Becomes([], [], open)
  {
    hide Pretty;
    forall rest: bytes
      ensures Pretty([] + rest, Between, open) == [] + Pretty(rest, Between, open)
    {
      NothingBefore(rest);
      NothingBefore(Pretty(rest, Between, open));
    }
  }

  lemma {:induction false} InertBecomes(t: bytes, open: seq<Container>)
    requires Inert(t)
    ensures Becomes(t, t, open)
  {
    hide Pretty, Inert;
    forall rest: bytes
      ensures Pretty(t + rest, Between, open) == t + Pretty(rest, Between, open)
    {
      PrettyInert(t, rest, open);
    }
  }

  lemma {:induction false} QuoteBecomes(str: bytes, open: seq<Container>)
    ensures Becomes(Quote(str), Quote(str), open)
  {
    hide Pretty, Quote;
    forall rest: bytes
      ensures Pretty(Quote(str) + rest, Between, open) == Quote(str) + Pretty(rest, Between, open)
    {
      PrettyQuote(str, rest, open);
    }
  }

  /** Separators. */
  lemma {:induction false} SeparatorBecomes(c: byte, open: seq<Container>)
    requires c == COMMA || c == COLON
    ensures Becomes([c], Laid(c, NUL, open), open)
  {
    hide Pretty;
    forall rest: bytes
      ensures Pretty([c] + rest, Between, open) == Laid(c, NUL, open) + Pretty(rest, Between, open)
    {
      PrettyFirst(c, rest, open);
    }
  }

  lemma {:induction false} ArrayBecomes(t: bytes, u: bytes, open: seq<Container>)
    requires Becomes(t, u, [OfItems] + open)
    ensures Becomes([LBRACKET] + t + [RBRACKET], [LBRACKET] + u + [RBRACKET], open)
  {
    hide Pretty;
    var inner := [OfItems] + open;
    forall rest: bytes
      ensures Pretty([LBRACKET] + t + [RBRACKET] + rest, Between, open) ==
        [LBRACKET] + u + [RBRACKET] + Pretty(rest, Between, open)
    {
      Assoc4([LBRACKET], t, [RBRACKET], rest);
      PrettyFirst(LBRACKET, t + ([RBRACKET] + rest), open);
      assert Pretty(t + ([RBRACKET] + rest), Between, inner) == u + Pretty([RBRACKET] + rest, Between, inner);
      PrettyFirst(RBRACKET, rest, inner);
      ConsTail(OfItems, open);
      Assoc4([LBRACKET], u, [RBRACKET], Pretty(rest, Between, open));
    }
  }

  /** The text between the braces of an object with members, which begins on a new line, and so does the
      brace behind it. */
  lemma {:induction false} ObjectBecomes(t: bytes, u: bytes, open: seq<Container>)
    requires Becomes(t, u, [OfMembers] + open) && t != [] && t[0] != RBRACE
    ensures Becomes([LBRACE] + t + [RBRACE], [LBRACE] + NewLine(|open| + 1) + u + NewLine(|open|) + [RBRACE], open)
  {
    hide Pretty, NewLine;
    var inner := [OfMembers] + open;
    forall rest: bytes
      ensures Pretty([LBRACE] + t + [RBRACE] + rest, Between, open) ==
        [LBRACE] + NewLine(|open| + 1) + u + NewLine(|open|) + [RBRACE] + Pretty(rest, Between, open)
    {
      Assoc4([LBRACE], t, [RBRACE], rest);
      PrettyFirst(LBRACE, t + ([RBRACE] + rest), open);
      assert Pretty(t + ([RBRACE] + rest), Between, inner) == u + Pretty([RBRACE] + rest, Between, inner);
      PrettyFirst(RBRACE, rest, inner);
      ConsTail(OfMembers, open);
      ObjectParts([LBRACE], NewLine(|open| + 1), u, NewLine(|open|), [RBRACE], Pretty(rest, Between, open));
    }
  }

  lemma {:induction false} ObjectParts(a: bytes, b: bytes, c: bytes, d: bytes, e: bytes, f: bytes)
    ensures a + b + c + d + e + f == (a + b) + (c + ((d + e) + f))
  {
    Assoc(a + b + c, d, e);
    Assoc(a + b + c, d + e, f);
    Assoc(a + b, c, (d + e) + f);
  }

  lemma {:induction false} EmptyObjectBecomes(open: seq<Container>)
    ensures Becomes([LBRACE, RBRACE], [LBRACE] + NewLine(|open|) + [RBRACE], open)
  {
    hide Pretty, NewLine;
    var inner := [OfMembers] + open;
    forall rest: bytes
      ensures Pretty([LBRACE, RBRACE] + rest, Between, open) ==
        [LBRACE] + NewLine(|open|) + [RBRACE] + Pretty(rest, Between, open)
    {
      HeadBefore([LBRACE, RBRACE], rest);
      PrettyFirst(LBRACE, [RBRACE] + rest, open);
      PrettyFirst(RBRACE, rest, inner);
      ConsTail(OfMembers, open);
      assert [LBRACE, RBRACE][1..] == [RBRACE];
      Assoc([LBRACE], NewLine(|open|) + [RBRACE], Pretty(rest, Between, open));
      Assoc([LBRACE], NewLine(|open|), [RBRACE]);
    }
  }

  /** Where the unformatted form stands in a text, the formatter writes the formatted one. */
  lemma {:induction false} ValueBecomes(v: Json, depth: nat, open: seq<Container>)
    ensures Becomes(Print(v, depth, false), Print(v, |open|, true), open)
    decreases v, 0
  {
    hide Becomes;
    match v
    case Null => InertBecomes(NULL_TEXT, open);
    case Bool(b) => InertBecomes(if b then TRUE_TEXT else FALSE_TEXT, open);
    case Num(x) => InertBecomes(FormatNumber(x), open);
    case Str(t) => QuoteBecomes(t, open);
    case Arr(items) =>
      ItemsBecome(items, depth, open);
      ArrayBecomes(PrintItems(items, depth, false), PrintItems(items, |open|, true), open);
    case Obj(members) =>
      if members == [] {
        EmptyObjectBecomes(open);
        EmptyObjectPrints(depth, |open|);
      } else {
        var u := MembersBecome(members, depth, open);
        MembersBegin(members, depth);
        ObjectBecomes(PrintMembers(members, depth, false), u, open);
        ObjectPrints(members, depth, |open|, u);
      }
  }

  lemma {:induction false} ItemsBecome(items: seq<Json>, depth: nat, open: seq<Container>)
    ensures Becomes(PrintItems(items, depth, false), PrintItems(items, |open|, true), [OfItems] + open)
    decreases items, 1
  {
    hide Becomes, Print;
    var inner := [OfItems] + open;
    if items == [] {
      NothingBecomes(inner);
    } else {
      ValueBecomes(items[0], depth + 1, inner);
      if |items| > 1 {
        ItemsBecome(items[1..], depth, open);
        SeparatorBecomes(COMMA, inner);
        assert [COMMA] + [SPACE] == [COMMA, SPACE];
        var t, u := PrintNested(items[0], depth, false), PrintNested(items[0], |open|, true);
        BecomesConcat(t, u, [COMMA], [COMMA, SPACE], inner);
        BecomesConcat(t + [COMMA], u + [COMMA, SPACE],
                      PrintItems(items[1..], depth, false), PrintItems(items[1..], |open|, true), inner);
      }
    }
  }

  lemma {:induction false} EmptyObjectPrints(depth: nat, depth': nat)
    ensures Print(Obj([]), depth, false) == [LBRACE, RBRACE]
    ensures Print(Obj([]), depth', true) == [LBRACE] + NewLine(depth') + [RBRACE]
  {
    Assoc([LBRACE], [LINEFEED], Tabs(depth'));
  }

  lemma {:induction false} MembersBegin(members: seq<Member>, depth: nat)
    requires members != []
    ensures PrintMembers(members, depth, false) != [] && PrintMembers(members, depth, false)[0] != RBRACE
  {
    var t := PrintMember(members[0], depth, false);
    assert t[0] == if members[0].key.Named? then QUOTE else COLON;
    if |members| > 1 {
      assert PrintMembers(members, depth, false)[0] == t[0];
    }
  }

  lemma {:induction false} ObjectPrints(members: seq<Member>, depth: nat, depth': nat, u: bytes)
    requires PrintMembers(members, depth', true) == Tabs(depth' + 1) + u + [LINEFEED]
    ensures Print(Obj(members), depth, false) == [LBRACE] + PrintMembers(members, depth, false) + [RBRACE]
    ensures Print(Obj(members), depth', true) == [LBRACE] + NewLine(depth' + 1) + u + NewLine(depth') + [RBRACE]
  {
    hide PrintMembers, Tabs;
    assert [LBRACE] + [] == [LBRACE];
    Assoc([LBRACE], PrintMembers(members, depth, false), []);
    Lines([LBRACE], [LINEFEED], Tabs(depth' + 1), u, [LINEFEED], Tabs(depth'));
  }

  lemma {:induction false} Lines(a: bytes, b: bytes, c: bytes, d: bytes, e: bytes, f: bytes)
    ensures a + b + (c + d + e) + f == a + (b + c) + d + (e + f)
  {
    Assoc(a, b, c);
    Assoc(a + b, c, d);
    Assoc(a + b, c + d, e);
    Assoc(a + (b + c) + d, e, f);
  }

  function MemberLine(m: Member, depth: nat): bytes {
    KeyText(m.key) + [COLON, TAB] + Print(m.value, depth + 1, true)
  }

  lemma {:induction false} MemberBecomes(m: Member, depth: nat, open: seq<Container>)
    ensures Becomes(PrintMember(m, depth, false), MemberLine(m, |open|), [OfMembers] + open)
    ensures PrintMember(m, |open|, true) == Tabs(|open| + 1) + MemberLine(m, |open|)
    decreases m, 1
  {
    hide Becomes, Print, Tabs;
    var inner := [OfMembers] + open;
    ValueBecomes(m.value, depth + 1, inner);
    if m.key.Named? {
      QuoteBecomes(m.key.name, inner);
    } else {
      NothingBecomes(inner);
    }
    var key := KeyText(m.key);
    SeparatorBecomes(COLON, inner);
    BecomesConcat(key, key, [COLON], [COLON, TAB], inner);
    BecomesConcat(key + [COLON], key + [COLON, TAB],
                  Print(m.value, depth + 1, false), Print(m.value, |open| + 1, true), inner);
    NothingBefore(key);
    Assoc(Tabs(|open| + 1), key, [COLON, TAB]);
    Assoc(Tabs(|open| + 1), key + [COLON, TAB], Print(m.value, |open| + 1, true));
  }

  /** Apart from the indentation of the first line and the break behind the last one. */
  lemma {:induction false} MembersBecome(members: seq<Member>, depth: nat, open: seq<Container>) returns (u: bytes)
    requires members != []
    ensures Becomes(PrintMembers(members, depth, false), u, [OfMembers] + open)
    ensures PrintMembers(members, |open|, true) == Tabs(|open| + 1) + u + [LINEFEED]
    decreases members, 2
  {
    hide Becomes, Print, Tabs, PrintMember, MemberLine;
    var inner, m := [OfMembers] + open, members[0];
    MemberBecomes(m, depth, open);
    var t, line := PrintMember(m, depth, false), MemberLine(m, |open|);
    if |members| == 1 {
      u := line;
      assert t + [] == t;
    } else {
      var rest := MembersBecome(members[1..], depth, open);
      SeparatorBecomes(COMMA, inner);
      var comma := [COMMA] + NewLine(|open| + 1);
      BecomesConcat(t, line, [COMMA], comma, inner);
      BecomesConcat(t + [COMMA], line + comma, PrintMembers(members[1..], depth, false), rest, inner);
      u := line + comma + rest;
      assert [COMMA] + [] == [COMMA];
      MoreLines(Tabs(|open| + 1), line, [COMMA], [LINEFEED], rest);
    }
  }

  lemma {:induction false} MoreLines(tabs: bytes, line: bytes, comma: bytes, brk: bytes, rest: bytes)
    ensures tabs + line + (comma + brk) + (tabs + rest + brk) == tabs + (line + (comma + (brk + tabs)) + rest) + brk
  {
    var x := comma + brk;
    Assoc(comma, brk, tabs);
    Assoc(tabs, line, x + tabs);
    Assoc(tabs, line + (x + tabs), rest);
    Assoc(tabs + line, x, tabs);
    Assoc(tabs + line + x, tabs, rest);
    Assoc(tabs + line + x, tabs + rest, brk);
  }

  /** The formatted form is what the formatter makes of the unformatted one. */
  lemma {:induction false} FormatterWrites(v: Json)
    ensures Print(v, 0, true) == Pretty(Print(v, 0, false), Between, [])
  {
    hide Print, Pretty;
    ValueBecomes(v, 0, []);
    var t, none: bytes := Print(v, 0, false), [];
    PrettyNothing([]);
    assert t + none == t;
    assert Print(v, 0, true) + none == Print(v, 0, true);
  }

  lemma {:induction false} PrettyNothing(open: seq<Container>)
    ensures Pretty([], Between, open) == []
  {}
}
