/** From an event to JSON text and back: the encoder, the parser and the walk together. */
module EventRoundTrip {
  import opened Bytes
  import opened Seqs
  import opened CText
  import opened JsonString
  import opened JsonTree
  import opened JsonParse
  import opened JsonRoundTrip
  import opened NodeTrees
  import opened Fields
  import opened Events
  import opened JsonEncoder
  import opened JsonEvents

  // ---------- names ----------

  /** The encoder does not escape names, so they must need no escaping. */
  predicate PlainName(name: bytes) {
    forall i :: 0 <= i < |name| ==> name[i] != QUOTE && name[i] != BACKSLASH && name[i] != NUL
  }

  /** A way of writing any byte that leaves the bytes of plain names alone. */
  function NameByte(c: byte): bytes {
    if c == QUOTE || c == BACKSLASH || c == NUL then EncodeByte(c) else [c]
  }

  lemma {:induction false} NameByteSpells()
    ensures forall c :: Spells(NameByte(c), c)
  {
    EncodeByteSpells();
    assert forall c: byte :: Spells(NameByte(c), c) by {
      forall c: byte ensures Spells(NameByte(c), c) {
        assert Spells(EncodeByte(c), c);
      }
    }
  }

  lemma {:induction false} PlainIsWritten(name: bytes)
    requires PlainName(name)
    ensures EscapeWith(NameByte, name) == name
    ensures DropNul(name) == name
  {
    if name == [] {
    } else {
      PlainIsWritten(name[1..]);
      assert name == [name[0]] + name[1..];
    }
  }

  // ---------- members as written ----------

  /** A member the encoder writes: one string, or a list of strings. */
  datatype Piece = Piece(name: bytes, gap: bytes, esc: byte -> bytes, content: Content)

  datatype Content = One(v: bytes) | Many(vs: seq<bytes>)

  ghost predicate Regular(p: Piece) {
    PlainName(p.name) && Blank(p.gap) && forall c :: Spells(p.esc(c), c)
  }

  function ValueText(p: Piece): (t: bytes)
    ensures t != [] && (t[0] == QUOTE || t[0] == LBRACKET)
  {
    if p.content.Many? then ListText(p.esc, p.content.vs) else Quoted(p.esc, p.content.v)
  }

  function PieceText(p: Piece): bytes
  {
    Quoted(NameByte, p.name) + ([COLON] + p.gap + ValueText(p))
  }

  function Texts(vs: seq<bytes>): seq<Json> {
    if vs == [] then [] else [Str(DropNul(vs[0]))] + Texts(vs[1..])
  }

  function PieceValue(p: Piece): Json
  {
    if p.content.Many? then Arr(Texts(p.content.vs)) else Str(DropNul(p.content.v))
  }

  function PieceMember(p: Piece): Member
  {
    Member(Named(p.name), PieceValue(p))
  }

  // ---------- reading one member ----------

  lemma {:induction false} QuotedReads(esc: byte -> bytes, v: bytes, s: bytes, p: nat)
    requires (forall c :: Spells(esc(c), c)) && At(s, p, Quoted(esc, v)) && Outside(s, p)
    ensures ParseValue(s, p) == Ok(Str(DropNul(v)), p + |Quoted(esc, v)|)
    ensures ParseString(s, p) == Ok(DropNul(v), p + |Quoted(esc, v)|)
    ensures Peek(s, p) == QUOTE && Skip(s, p) == p
  {
    QuoteRoundTrip(esc, v, s, p);
    AtFirst(s, p, Quoted(esc, v));
    NotLiteral(s, p);
  }

  lemma {:induction false} ItemsRead(esc: byte -> bytes, vs: seq<bytes>, s: bytes, p: nat)
    requires (forall c :: Spells(esc(c), c)) && vs != []
    requires At(s, p, JoinQuoted(esc, vs) + [RBRACKET]) && Outside(s, p)
    ensures ParseItems(s, p) == Ok(Texts(vs), p + |JoinQuoted(esc, vs)| + 1)
    ensures Peek(s, p) == QUOTE && Skip(s, p) == p
    decreases |vs|
  {
    hide ParseItems, ParseValue, ParseString, At, Outside, Quoted, DropNul, Spells;
    var q := Quoted(esc, vs[0]);
    if |vs| == 1 {
      AtSplit(s, p, q, [RBRACKET]);
      QuotedReads(esc, vs[0], s, p);
      AtFirst(s, p + |q|, [RBRACKET]);
      ItemsLast(s, p, Str(DropNul(vs[0])), p + |q|);
      assert Texts(vs) == [Str(DropNul(vs[0]))];
    } else {
      var rest := JoinQuoted(esc, vs[1..]) + [RBRACKET];
      Assoc4(q, [COMMA], JoinQuoted(esc, vs[1..]), [RBRACKET]);
      AtSplit(s, p, q, [COMMA] + rest);
      QuotedReads(esc, vs[0], s, p);
      AtFirst(s, p + |q|, [COMMA] + rest);
      AtSplit(s, p + |q|, [COMMA], rest);
      OutsideStep(s, p + |q|);
      ItemsRead(esc, vs[1..], s, p + |q| + 1);
      ItemsMore(s, p, Str(DropNul(vs[0])), p + |q|, Texts(vs[1..]), p + |q| + 1 + |rest|);
    }
  }

  lemma {:induction false} ListReads(esc: byte -> bytes, vs: seq<bytes>, s: bytes, p: nat)
    requires (forall c :: Spells(esc(c), c)) && At(s, p, ListText(esc, vs)) && Outside(s, p)
    ensures ParseValue(s, p) == Ok(Arr(Texts(vs)), p + |ListText(esc, vs)|)
    ensures Peek(s, p) == LBRACKET && Skip(s, p) == p
  {
    var body := JoinQuoted(esc, vs) + [RBRACKET];
    Assoc([LBRACKET], JoinQuoted(esc, vs), [RBRACKET]);
    AtSplit(s, p, [LBRACKET], body);
    AtFirst(s, p, [LBRACKET]);
    if vs == [] {
      AtFirst(s, p + 1, body);
      EmptyContainer(s, p);
    } else {
      ItemsRead(esc, vs, s, p + 1);
      ArrayIs(s, p, Texts(vs), p + 1 + |body|);
    }
  }

  lemma {:induction false} ValueReads(x: Piece, s: bytes, p: nat)
    requires Regular(x) && At(s, p, ValueText(x)) && Outside(s, p)
    ensures ParseValue(s, p) == Ok(PieceValue(x), p + |ValueText(x)|)
    ensures Peek(s, p) > SPACE
  {
    if x.content.Many? {
      ListReads(x.esc, x.content.vs, s, p);
    } else {
      QuotedReads(x.esc, x.content.v, s, p);
    }
  }

  lemma {:induction false} OutsideBlanks(s: bytes, p: nat, c: byte, blank: bytes)
    requires At(s, p, [c] + blank) && Blank(blank) && Outside(s, p) && c > SPACE && c != QUOTE
    ensures Outside(s, p + 1) && Peek(s, p) == c
  {
    AtFirst(s, p, [c] + blank);
  }

  /** A member reads back, up to where its text ends. */
  lemma {:induction false} PieceReads(x: Piece, s: bytes, p: nat)
    requires Regular(x) && At(s, p, PieceText(x)) && Outside(s, p)
    ensures ParseMember(s, p) == Ok(PieceMember(x), p + |PieceText(x)|)
    ensures Peek(s, p) == QUOTE
  {
    hide ParseMember, ParseValue, ParseString, At, Outside, Quoted, ValueText, Blank;
    var k, colon, v := Quoted(NameByte, x.name), [COLON] + x.gap, ValueText(x);
    NameByteSpells();
    PlainIsWritten(x.name);
    AtSplit(s, p, k, colon + v);
    QuotedReads(NameByte, x.name, s, p);
    var c := p + |k|;
    AtSplit(s, c, colon, v);
    OutsideBlanks(s, c, COLON, x.gap);
    ValueFirst(x, s, c + |colon|);
    SkipAfter(s, c, COLON, x.gap);
    ValueReads(x, s, c + |colon|);
    MemberIs(s, p, x.name, c, PieceValue(x), c + |colon| + |v|);
  }

  lemma {:induction false} ValueFirst(x: Piece, s: bytes, p: nat)
    requires Regular(x) && At(s, p, ValueText(x))
    ensures Peek(s, p) > SPACE
  {
    AtFirst(s, p, ValueText(x));
  }

  // ---------- reading the members ----------

  ghost predicate AllRegular(ps: seq<Piece>) {
    forall i :: 0 <= i < |ps| ==> Regular(ps[i])
  }

  function Members(ps: seq<Piece>): (ms: seq<Member>)
    ensures |ms| == |ps|
  {
    if ps == [] then [] else [PieceMember(ps[0])] + Members(ps[1..])
  }

  /** Members that others follow. */
  function Leading(ps: seq<Piece>): bytes
  {
    if ps == [] then [] else PieceText(ps[0]) + SEPARATOR + Leading(ps[1..])
  }

  lemma {:induction false} PrependNone(r: Parsed<seq<Member>>)
    ensures Prepend([], r) == r
  {
    if r.Ok? {
      assert [] + r.value == r.value;
    }
  }

  lemma {:induction false} PrependTwice(m: Member, ms: seq<Member>, r: Parsed<seq<Member>>)
    ensures Prepend([m], Prepend(ms, r)) == Prepend([m] + ms, r)
  {
    if r.Ok? {
      Assoc([m], ms, r.value);
    }
  }

  /** A comma and a blank after a member lead to the next one. */
  lemma {:induction false} OverSeparator(s: bytes, p: nat, m: Member, q: nat)
    requires Outside(s, p) && ParseMember(s, p) == Ok(m, q)
    requires At(s, q, SEPARATOR) && Peek(s, q + 2) == QUOTE
    ensures Outside(s, q + 2) && ParseMembers(s, p) == Prepend([m], ParseMembers(s, q + 2))
  {
    SeparatorStands(s, q);
    hide At, ParseMember, Skip, Outside;
    OutsideStep(s, q);
    OutsideStep(s, q + 1);
    MembersSkip(s, q + 1);
    CommaContinues(s, p, m, q);
  }

  lemma {:induction false} SeparatorStands(s: bytes, q: nat)
    requires At(s, q, SEPARATOR) && Peek(s, q + 2) == QUOTE
    ensures Peek(s, q) == COMMA && Peek(s, q + 1) == SPACE && Skip(s, q) == q && Skip(s, q + 1) == q + 2
  {
    AtIndex(s, q, SEPARATOR, 0);
    AtIndex(s, q, SEPARATOR, 1);
  }

  lemma {:induction false} CommaContinues(s: bytes, p: nat, m: Member, q: nat)
    requires Outside(s, p) && ParseMember(s, p) == Ok(m, q) && Skip(s, q) == q && Peek(s, q) == COMMA
    ensures Outside(s, q + 1) && ParseMembers(s, p) == Prepend([m], ParseMembers(s, q + 1))
  {}

  /** Where further members follow, those before them read back. */
  lemma {:induction false} LeadingReads(ps: seq<Piece>, rest: bytes, s: bytes, p: nat)
    requires AllRegular(ps) && At(s, p, Leading(ps) + rest) && Outside(s, p)
    requires rest != [] && rest[0] == QUOTE
    ensures Outside(s, p + |Leading(ps)|) && At(s, p + |Leading(ps)|, rest) && Peek(s, p) == QUOTE
    ensures ParseMembers(s, p) == Prepend(Members(ps), ParseMembers(s, p + |Leading(ps)|))
    decreases |ps|
  {
    hide ParseMembers, ParseMember, At, Outside, PieceText, Skip;
    if ps == [] {
      assert Leading(ps) + rest == rest;
      AtFirst(s, p, rest);
      PrependNone(ParseMembers(s, p));
    } else {
      var x := PieceText(ps[0]);
      var more := Leading(ps[1..]) + rest;
      Assoc4(x, SEPARATOR, Leading(ps[1..]), rest);
      AtSplit(s, p, x, SEPARATOR + more);
      AtSplit(s, p + |x|, SEPARATOR, more);
      PieceReads(ps[0], s, p);
      LeadingFirst(ps[1..], rest);
      AtFirst(s, p + |x| + 2, more);
      OverSeparator(s, p, PieceMember(ps[0]), p + |x|);
      LeadingReads(ps[1..], rest, s, p + |x| + 2);
      PrependTwice(PieceMember(ps[0]), Members(ps[1..]), ParseMembers(s, p + |Leading(ps)|));
    }
  }

  lemma {:induction false} LeadingFirst(ps: seq<Piece>, rest: bytes)
    requires AllRegular(ps) && rest != [] && rest[0] == QUOTE
    ensures Leading(ps) + rest != [] && (Leading(ps) + rest)[0] == QUOTE
  {}

  lemma {:induction false} LastReads(x: Piece, s: bytes, p: nat)
    requires Regular(x) && At(s, p, PieceText(x) + [RBRACE]) && Outside(s, p)
    ensures ParseMembers(s, p) == Ok([PieceMember(x)], p + |PieceText(x)| + 1)
  {
    hide ParseMembers, ParseMember, Outside;
    AtSplit(s, p, PieceText(x), [RBRACE]);
    PieceReads(x, s, p);
    AtFirst(s, p + |PieceText(x)|, [RBRACE]);
    MembersLast(s, p, PieceMember(x), p + |PieceText(x)|);
  }

  function PieceTexts(ps: seq<Piece>): seq<bytes>
  {
    if ps == [] then [] else [PieceText(ps[0])] + PieceTexts(ps[1..])
  }

  function ObjectText(ps: seq<Piece>): bytes
  {
    [LBRACE] + JoinTexts(PieceTexts(ps)) + [RBRACE]
  }

  /** All members but the last are leading ones. */
  lemma {:induction false} JoinIsLeading(front: seq<Piece>, x: Piece)
    requires AllRegular(front + [x])
    ensures JoinTexts(PieceTexts(front + [x])) == Leading(front) + PieceText(x)
    ensures Members(front + [x]) == Members(front) + [PieceMember(x)]
  {
    hide PieceText;
    var ps := front + [x];
    ConsTail(PieceText(ps[0]), PieceTexts(ps[1..]));
    if front == [] {
      assert ps == [x] && ps[1..] == [];
      assert [] + PieceText(x) == PieceText(x) && [] + [PieceMember(x)] == [PieceMember(x)];
    } else {
      assert ps[1..] == front[1..] + [x] && ps[0] == front[0];
      JoinIsLeading(front[1..], x);
      Assoc(PieceText(front[0]) + SEPARATOR, Leading(front[1..]), PieceText(x));
      Assoc([PieceMember(front[0])], Members(front[1..]), [PieceMember(x)]);
    }
  }

  /** The members of an object text read back, up to the brace that closes it. */
  lemma {:induction false} BodyReads(front: seq<Piece>, x: Piece, s: bytes, p: nat)
    requires AllRegular(front + [x]) && Outside(s, p)
    requires At(s, p, JoinTexts(PieceTexts(front + [x])) + [RBRACE])
    ensures ParseMembers(s, p) == Ok(Members(front + [x]), p + |JoinTexts(PieceTexts(front + [x]))| + 1)
    ensures Peek(s, p) == QUOTE
  {
    hide ParseMembers, Outside, At, PieceText, JoinTexts, PieceTexts, Members, Leading;
    JoinIsLeading(front, x);
    assert forall i :: 0 <= i < |front| ==> (front + [x])[i] == front[i];
    assert (front + [x])[|front|] == x;
    Assoc(Leading(front), PieceText(x), [RBRACE]);
    PieceFirst(x);
    LeadingReads(front, PieceText(x) + [RBRACE], s, p);
    LastReads(x, s, p + |Leading(front)|);
  }

  lemma {:induction false} PieceFirst(x: Piece)
    requires Regular(x)
    ensures PieceText(x) != [] && PieceText(x)[0] == QUOTE
  {}

  /** The object text reads back, member by member. */
  lemma {:induction false} ObjectReads(ps: seq<Piece>, s: bytes, p: nat)
    requires AllRegular(ps) && At(s, p, ObjectText(ps)) && Outside(s, p)
    ensures ParseValue(s, p) == Ok(Obj(Members(ps)), p + |ObjectText(ps)|)
  {
    hide ParseMembers, ParseValue, JoinTexts, AllRegular;
    var body := JoinTexts(PieceTexts(ps));
    Assoc([LBRACE], body, [RBRACE]);
    AtSplit(s, p, [LBRACE], body + [RBRACE]);
    AtFirst(s, p, [LBRACE]);
    if ps == [] {
      NoTexts();
      AtFirst(s, p + 1, body + [RBRACE]);
      EmptyContainer(s, p);
    } else {
      var front, x := ps[..|ps| - 1], ps[|ps| - 1];
      assert ps == front + [x];
      OutsideStep(s, p);
      BodyReads(front, x, s, p + 1);
      ObjectIs(s, p, Members(ps), p + |ObjectText(ps)|);
    }
  }

  lemma {:induction false} NoTexts()
    ensures JoinTexts([]) == []
  {}

  // ---------- the encoder's text is an object text ----------

  function FieldPiece(rec: Record, compact: bool): Piece {
    Piece(rec.name, if compact then [] else [SPACE], EncodeByte,
          if |rec.values| > 1 then Many(rec.values) else One(if rec.values == [] then [] else rec.values[0]))
  }

  function TagsPiece(tags: seq<bytes>): Piece {
    Piece(TAGS_NAME, [], NameByte, Many(tags))
  }

  function FieldPieces(recs: seq<Record>, compact: bool): (ps: seq<Piece>)
    ensures |ps| == |recs|
  {
    if recs == [] then [] else [FieldPiece(recs[0], compact)] + FieldPieces(recs[1..], compact)
  }

  function Pieces(recs: seq<Record>, tags: Option<seq<bytes>>, compact: bool): seq<Piece> {
    (if tags.Some? then [TagsPiece(tags.value)] else []) + FieldPieces(recs, compact)
  }

  lemma {:induction false} QuotedName(name: bytes)
    requires PlainName(name)
    ensures Quoted(NameByte, name) == [QUOTE] + name + [QUOTE]
  {
    PlainIsWritten(name);
  }

  /** The ultra-compact form of a field without values is the one exception. */
  lemma {:induction false} FieldIsPiece(rec: Record, compact: bool)
    requires PlainName(rec.name) && !(compact && rec.values == [])
    ensures FieldText(rec, compact) == PieceText(FieldPiece(rec, compact))
    ensures Regular(FieldPiece(rec, compact))
  {
    var x := FieldPiece(rec, compact);
    QuotedName(rec.name);
    EncodeByteSpells();
    assert ValueText(x) == ValuesText(rec.values, compact) by {
      if rec.values == [] {
        assert EscapeWith(EncodeByte, []) == [];
      }
    }
    assert [COLON] + x.gap == Colon(compact);
    Assoc([QUOTE] + rec.name + [QUOTE], Colon(compact), ValueText(x));
  }

  predicate PlainNames(recs: seq<Record>) {
    forall i :: 0 <= i < |recs| ==> PlainName(recs[i].name)
  }

  predicate HasValueless(recs: seq<Record>) {
    exists i :: 0 <= i < |recs| && recs[i].values == []
  }

  predicate PlainTags(tags: seq<bytes>) {
    forall i :: 0 <= i < |tags| ==> PlainName(tags[i])
  }

  lemma {:induction false} FieldsArePieces(recs: seq<Record>, compact: bool)
    requires PlainNames(recs) && !(compact && HasValueless(recs))
    ensures FieldTexts(recs, compact) == PieceTexts(FieldPieces(recs, compact))
    ensures AllRegular(FieldPieces(recs, compact))
  {
    if recs == [] {
    } else {
      var ps := FieldPieces(recs, compact);
      FieldIsPiece(recs[0], compact);
      assert compact && HasValueless(recs[1..]) ==> HasValueless(recs) by {
        if HasValueless(recs[1..]) {
          var i :| 0 <= i < |recs[1..]| && recs[1..][i].values == [];
          assert recs[i + 1].values == [];
        }
      }
      FieldsArePieces(recs[1..], compact);
      assert ps[1..] == FieldPieces(recs[1..], compact);
      assert forall i :: 1 <= i < |ps| ==> ps[i] == ps[1..][i - 1];
    }
  }

  lemma {:induction false} TagsVerbatim(tags: seq<bytes>)
    requires PlainTags(tags)
    ensures JoinQuoted(Verbatim, tags) == JoinQuoted(NameByte, tags)
  {
    if tags == [] {
    } else {
      VerbatimIs(tags[0]);
      PlainIsWritten(tags[0]);
      TagsVerbatim(tags[1..]);
    }
  }

  lemma {:induction false} TagsNameIs()
    ensures PlainName(TAGS_NAME) && Quoted(NameByte, TAGS_NAME) == [QUOTE] + TAGS_NAME + [QUOTE]
    ensures [COLON] + [] == [COLON]
  {
    var t := TAGS_NAME;
    assert |t| == 10 && t[0] == t[2] == 0x65 && t[1] == 0x76 && t[3] == 0x6E && t[4] == 0x74;
    assert t[5] == 0x2E && t[6] == 0x74 && t[7] == 0x61 && t[8] == 0x67 && t[9] == 0x73;
    assert PlainName(t);
    hide PlainName;
    QuotedName(t);
  }

  lemma {:induction false} TagsArePiece(tags: seq<bytes>)
    requires PlainTags(tags)
    ensures TagsText(tags) == PieceText(TagsPiece(tags)) && Regular(TagsPiece(tags))
  {
    TagsVerbatim(tags);
    NameByteSpells();
    TagsNameIs();
    hide ListText, Quoted, NameByte;
    Assoc([QUOTE] + TAGS_NAME + [QUOTE], [COLON], ListText(NameByte, tags));
  }

  lemma {:induction false} EventIsObject(recs: seq<Record>, tags: Option<seq<bytes>>, compact: bool)
    requires PlainNames(recs) && !(compact && HasValueless(recs)) && (tags.Some? ==> PlainTags(tags.value))
    ensures EventText(recs, tags, compact) == ObjectText(Pieces(recs, tags, compact))
    ensures AllRegular(Pieces(recs, tags, compact))
  {
    hide Regular, PieceText, TagsText, FieldPieces, FieldTexts, JoinTexts;
    var ps, fs := Pieces(recs, tags, compact), FieldPieces(recs, compact);
    FieldsArePieces(recs, compact);
    if tags.Some? {
      TagsArePiece(tags.value);
      ConsTail(TagsPiece(tags.value), fs);
      assert forall i :: 1 <= i < |ps| ==> ps[i] == fs[i - 1];
    } else {
      assert ps == fs && [] + FieldTexts(recs, compact) == FieldTexts(recs, compact);
    }
  }

  // ---------- the fields of what comes back ----------

  /** The name under which the elements of a list come back. */
  function ListName(name: bytes): bytes {
    NameUnder(name, Unnamed)
  }

  function Each(name: bytes, vs: seq<bytes>): (recs: seq<Record>)
    ensures |recs| == |vs|
  {
    if vs == [] then [] else [Record(name, [vs[0]])] + Each(name, vs[1..])
  }

  /** A field comes back as one field for each value, or as one empty one if it has no values. */
  function Spread(rec: Record): (recs: seq<Record>)
    ensures recs != []
  {
    if |rec.values| > 1 then Each(ListName(rec.name), rec.values)
    else [Record(rec.name, [if rec.values == [] then [] else rec.values[0]])]
  }

  function SpreadAll(recs: seq<Record>): seq<Record> {
    if recs == [] then [] else Spread(recs[0]) + SpreadAll(recs[1..])
  }

  function DropNuls(vs: seq<bytes>): (ws: seq<bytes>)
    ensures |ws| == |vs|
  {
    if vs == [] then [] else [DropNul(vs[0])] + DropNuls(vs[1..])
  }

  /** The field without the NUL bytes in its values. */
  function Clean(rec: Record): Record {
    Record(rec.name, DropNuls(rec.values))
  }

  function CleanAll(recs: seq<Record>): (cs: seq<Record>)
    ensures |cs| == |recs|
  {
    if recs == [] then [] else [Clean(recs[0])] + CleanAll(recs[1..])
  }

  /** The fields the walk makes of the members of an object. */
  function MemberFields(ms: seq<Member>): seq<Record> {
    if ms == [] then [] else FieldsOf(ms[0]) + MemberFields(ms[1..])
  }

  function FieldsOf(m: Member): seq<Record> {
    FlattenEntry(Entry(m.key, m.value), [])
  }

  lemma {:induction false} MemberFieldsFirst(m: Member, ms: seq<Member>)
    ensures MemberFields([m] + ms) == FieldsOf(m) + MemberFields(ms)
  {
    ConsTail(m, ms);
  }

  lemma {:induction false} MemberFieldsOne(m: Member)
    ensures MemberFields([m]) == FieldsOf(m)
  {
    assert [m][1..] == [] && FieldsOf(m) + [] == FieldsOf(m);
  }

  lemma {:induction false} MemberFieldsConcat(a: seq<Member>, b: seq<Member>)
    ensures MemberFields(a + b) == MemberFields(a) + MemberFields(b)
  {
    if a == [] {
      NothingBefore(b);
      NothingBefore(MemberFields(b));
    } else {
      hide MemberFields, FieldsOf;
      MemberFieldsConcat(a[1..], b);
      HeadTail(a);
      Assoc([a[0]], a[1..], b);
      MemberFieldsFirst(a[0], a[1..] + b);
      MemberFieldsFirst(a[0], a[1..]);
      Assoc(FieldsOf(a[0]), MemberFields(a[1..]), MemberFields(b));
    }
  }

  lemma {:induction false} FlattenMembers(ms: seq<Member>, k: nat)
    requires k <= |ms|
    ensures forall i :: 0 <= i < |Entries(Obj(ms))| ==> Entries(Obj(ms))[i].value < Obj(ms)
    ensures Flatten(Entries(Obj(ms))[k..], [], Obj(ms)) == MemberFields(ms[k..])
    decreases |ms| - k
  {
    EntriesSmaller(Obj(ms));
    var es := Entries(Obj(ms));
    if k < |ms| {
      FlattenMembers(ms, k + 1);
      FlattenNext(es, k, [], Obj(ms));
      assert ms[k..][1..] == ms[k + 1..] && ms[k..][0] == ms[k];
    } else {
      assert es[k..] == [] && ms[k..] == [];
    }
  }

  lemma {:induction false} EventOfObject(ms: seq<Member>)
    ensures EventOf(Obj(ms)) == MemberFields(ms)
  {
    var v := Obj(ms);
    EntriesSmaller(Arr([v]));
    EntriesSmaller(v);
    FlattenMembers(ms, 0);
    assert Entries(v)[0..] == Entries(v) && ms[0..] == ms;
    var es := Entries(Arr([v]));
    assert es[1..] == [] && es[0] == Entry(Unnamed, v);
    var below := MemberFields(ms);
    assert FlattenBelow(es[0], []) == below;
    assert OwnField(es[0], []) == [] && [] + below == below && below + [] == below;
    FlattenNext(es, 0, [], Arr([v]));
    assert es[0..] == es;
  }

  lemma {:induction false} TextsEntries(vs: seq<bytes>)
    ensures var es := Entries(Arr(Texts(vs)));
      |es| == |vs| && forall i :: 0 <= i < |vs| ==> es[i] == Entry(Unnamed, Str(DropNul(vs[i])))
  {
    TextsLength(vs);
    forall i | 0 <= i < |vs|
      ensures Texts(vs)[i] == Str(DropNul(vs[i]))
    {
      TextsAt(vs, i);
    }
  }

  lemma {:induction false} EachNext(name: bytes, vs: seq<bytes>, k: nat)
    requires k < |vs|
    ensures Each(name, DropNuls(vs[k..])) == [Record(name, [DropNul(vs[k])])] + Each(name, DropNuls(vs[k + 1..]))
  {
    assert vs[k..][1..] == vs[k + 1..] && vs[k..][0] == vs[k];
    ConsTail(DropNul(vs[k]), DropNuls(vs[k + 1..]));
  }

  lemma {:induction false} FlattenTexts(name: bytes, vs: seq<bytes>, k: nat, bound: Json)
    requires k <= |vs| && bound == Arr(Texts(vs)) && |Entries(bound)| == |vs|
    ensures forall i :: 0 <= i < |Entries(bound)| ==> Entries(bound)[i].value < bound
    ensures Flatten(Entries(bound)[k..], name, bound) == Each(ListName(name), DropNuls(vs[k..]))
    decreases |vs| - k
  {
    EntriesSmaller(bound);
    var es := Entries(bound);
    TextsEntries(vs);
    hide Texts, Entries, FlattenEntry, ListName, DropNul;
    if k == |vs| {
      assert es[k..] == [] && vs[k..] == [];
    } else {
      FlattenTexts(name, vs, k + 1, bound);
      FlattenNext(es, k, name, bound);
      StringEntry(Unnamed, DropNul(vs[k]), name);
      ListNameIs(name);
      EachNext(ListName(name), vs, k);
    }
  }

  lemma {:induction false} ListNameIs(name: bytes)
    ensures ListName(name) == NameUnder(name, Unnamed)
  {}

  lemma {:induction false} StringEntry(key: Key, t: bytes, prefix: bytes)
    ensures FlattenEntry(Entry(key, Str(t)), prefix) == [Record(NameUnder(prefix, key), [t])]
  {
    assert FlattenBelow(Entry(key, Str(t)), prefix) == [];
  }

  lemma {:induction false} TextsAt(vs: seq<bytes>, k: nat)
    requires k < |vs|
    ensures |Texts(vs)| == |vs| && Texts(vs)[k] == Str(DropNul(vs[k]))
  {
    TextsLength(vs);
    if k == 0 {
    } else {
      TextsAt(vs[1..], k - 1);
    }
  }

  lemma {:induction false} TextsLength(vs: seq<bytes>)
    ensures |Texts(vs)| == |vs|
  {
    if vs == [] {
    } else {
      TextsLength(vs[1..]);
    }
  }

  /** A list of strings becomes one field for each. */
  lemma {:induction false} ListEntry(name: bytes, vs: seq<bytes>)
    ensures FlattenEntry(Entry(Named(name), Arr(Texts(vs))), []) == Each(ListName(name), DropNuls(vs))
  {
    TextsLength(vs);
    FlattenTexts(name, vs, 0, Arr(Texts(vs)));
    var e := Entry(Named(name), Arr(Texts(vs)));
    assert Entries(e.value)[0..] == Entries(e.value) && vs[0..] == vs;
    assert [] + FlattenBelow(e, []) == FlattenBelow(e, []);
  }

  lemma {:induction false} FieldComesBack(rec: Record, compact: bool)
    ensures MemberFields([PieceMember(FieldPiece(rec, compact))]) == Spread(Clean(rec))
  {
    var m := PieceMember(FieldPiece(rec, compact));
    if |rec.values| > 1 {
      ListEntry(rec.name, rec.values);
    } else {
      StringEntry(Named(rec.name), m.value.text, []);
    }
    MemberFieldsOne(m);
  }

  lemma {:induction false} FieldsComeBack(recs: seq<Record>, compact: bool)
    ensures MemberFields(Members(FieldPieces(recs, compact))) == SpreadAll(CleanAll(recs))
  {
    if recs == [] {
    } else {
      var ps, m := FieldPieces(recs, compact), PieceMember(FieldPiece(recs[0], compact));
      ConsTail(FieldPiece(recs[0], compact), FieldPieces(recs[1..], compact));
      FieldsComeBack(recs[1..], compact);
      FieldComesBack(recs[0], compact);
      MemberFieldsConcat([m], Members(ps[1..]));
      ConsTail(Clean(recs[0]), CleanAll(recs[1..]));
    }
  }

  // ---------- encoded text meets what the parser presumes ----------

  lemma {:induction false} JoinTame(esc: byte -> bytes, vs: seq<bytes>)
    requires forall c :: Spells(esc(c), c)
    ensures Tame(JoinQuoted(esc, vs))
  {
    if vs == [] {
    } else {
      QuotedTame(esc, vs[0]);
      JoinTame(esc, vs[1..]);
      TamePlain([COMMA]);
      TameConcat3(Quoted(esc, vs[0]), [COMMA], JoinQuoted(esc, vs[1..]));
    }
  }

  lemma {:induction false} ListTame(esc: byte -> bytes, vs: seq<bytes>)
    requires forall c :: Spells(esc(c), c)
    ensures Tame(ListText(esc, vs))
  {
    JoinTame(esc, vs);
    TamePlain([LBRACKET]);
    TamePlain([RBRACKET]);
    TameConcat3([LBRACKET], JoinQuoted(esc, vs), [RBRACKET]);
  }

  lemma {:induction false} FieldTame(rec: Record, compact: bool)
    requires PlainName(rec.name)
    ensures Tame(FieldText(rec, compact))
  {
    EncodeByteSpells();
    if |rec.values| == 0 {
      TamePlain(ValuesText(rec.values, compact));
    } else if |rec.values| == 1 {
      QuotedTame(EncodeByte, rec.values[0]);
    } else {
      ListTame(EncodeByte, rec.values);
    }
    TamePlain([QUOTE] + rec.name + [QUOTE] + Colon(compact));
    TameConcat([QUOTE] + rec.name + [QUOTE] + Colon(compact), ValuesText(rec.values, compact));
  }

  lemma {:induction false} TagsTame(tags: seq<bytes>)
    requires PlainTags(tags)
    ensures Tame(TagsText(tags))
  {
    NameByteSpells();
    TagsVerbatim(tags);
    ListTame(NameByte, tags);
    TamePlain([QUOTE] + TAGS_NAME + [QUOTE] + [COLON]);
    TameConcat([QUOTE] + TAGS_NAME + [QUOTE] + [COLON], ListText(Verbatim, tags));
  }

  predicate AllTame(ts: seq<bytes>) {
    forall i :: 0 <= i < |ts| ==> Tame(ts[i])
  }

  lemma {:induction false} JoinTextsTame(ts: seq<bytes>)
    requires AllTame(ts)
    ensures Tame(JoinTexts(ts))
  {
    if ts == [] {
    } else {
      JoinTextsTame(ts[1..]);
      TamePlain(SEPARATOR);
      TameConcat3(ts[0], SEPARATOR, JoinTexts(ts[1..]));
    }
  }

  lemma {:induction false} FieldTextsTame(recs: seq<Record>, compact: bool)
    requires PlainNames(recs)
    ensures AllTame(FieldTexts(recs, compact))
  {
    if recs == [] {
    } else {
      FieldTame(recs[0], compact);
      FieldTextsTame(recs[1..], compact);
      var ts := FieldTexts(recs, compact);
      ConsTail(FieldText(recs[0], compact), FieldTexts(recs[1..], compact));
      assert forall i :: 1 <= i < |ts| ==> ts[i] == ts[1..][i - 1];
    }
  }

  /** Encoded text is what the parser presumes: its escapes are complete. */
  lemma {:induction false} EventTextTame(recs: seq<Record>, tags: Option<seq<bytes>>, compact: bool)
    requires PlainNames(recs) && (tags.Some? ==> PlainTags(tags.value))
    ensures Tame(EventText(recs, tags, compact))
  {
    hide TagsText, FieldTexts, JoinTexts;
    var ts := MemberTexts(recs, tags, compact);
    FieldTextsTame(recs, compact);
    if tags.Some? {
      TagsTame(tags.value);
    }
    JoinTextsTame(ts);
    TamePlain([LBRACE]);
    TamePlain([RBRACE]);
    TameConcat3([LBRACE], JoinTexts(ts), [RBRACE]);
  }

  // ---------- the round trip ----------

  /** ee_newEventFromJSON of a text: the fields of the event, if there is one at all. */
  function LoadText(text: bytes): Option<seq<Record>>
    requires Outside(text + [NUL], 0)
  {
    var r := Parse(text + [NUL]);
    if r.Ok? then Some(EventOf(r.value)) else None
  }

  /** An encoded event, loaded again. */
  function Reload(recs: seq<Record>, tags: Option<seq<bytes>>, compact: bool): Option<seq<Record>>
    requires PlainNames(recs) && (tags.Some? ==> PlainTags(tags.value))
  {
    var text := EventText(recs, tags, compact);
    EventTextTame(recs, tags, compact);
    TameText(text);
    LoadText(text)
  }

  function TagFields(tags: Option<seq<bytes>>): seq<Record> {
    if tags.Some? then Each(ListName(TAGS_NAME), tags.value) else []
  }

  lemma {:induction false} PlainTagsKeep(tags: seq<bytes>)
    requires PlainTags(tags)
    ensures DropNuls(tags) == tags
  {
    if tags == [] {
    } else {
      PlainIsWritten(tags[0]);
      PlainTagsKeep(tags[1..]);
      HeadTail(tags);
    }
  }

  lemma {:induction false} MembersFirst(p: Piece, ps: seq<Piece>)
    ensures Members([p] + ps) == [PieceMember(p)] + Members(ps)
  {
    ConsTail(p, ps);
  }

  lemma {:induction false} TagsComeBack(tags: seq<bytes>)
    requires PlainTags(tags)
    ensures FieldsOf(PieceMember(TagsPiece(tags))) == TagFields(Some(tags))
  {
    ListEntry(TAGS_NAME, tags);
    PlainTagsKeep(tags);
  }

  lemma {:induction false} PiecesComeBack(recs: seq<Record>, tags: Option<seq<bytes>>, compact: bool)
    requires tags.Some? ==> PlainTags(tags.value)
    ensures MemberFields(Members(Pieces(recs, tags, compact))) == TagFields(tags) + SpreadAll(CleanAll(recs))
  {
    hide MemberFields, FieldPieces, SpreadAll, CleanAll, PieceMember, TagsPiece, FieldsOf, Each, Members;
    var fs := FieldPieces(recs, compact);
    FieldsComeBack(recs, compact);
    if tags.Some? {
      MembersFirst(TagsPiece(tags.value), fs);
      MemberFieldsFirst(PieceMember(TagsPiece(tags.value)), Members(fs));
      TagsComeBack(tags.value);
    } else {
      NothingBefore(fs);
      NoTagFields(SpreadAll(CleanAll(recs)));
    }
  }

  /** Encoding and reloading: first one field for each tag, then the fields in order, a list spread
      over several fields, and every value without its NUL bytes. */
  lemma {:induction false} EventComesBack(recs: seq<Record>, tags: Option<seq<bytes>>, compact: bool)
    requires PlainNames(recs) && (tags.Some? ==> PlainTags(tags.value))
    requires !(compact && HasValueless(recs))
    ensures Reload(recs, tags, compact) == Some(TagFields(tags) + SpreadAll(CleanAll(recs)))
  {
    hide EventText, ObjectText, Pieces, Members, EventOf, ParseValue, TagFields, SpreadAll, CleanAll;
    var text, ps := EventText(recs, tags, compact), Pieces(recs, tags, compact);
    var s := text + [NUL];
    EventTextTame(recs, tags, compact);
    TameText(text);
    EventIsObject(recs, tags, compact);
    AtIs(s, 0, text);
    ObjectReads(ps, s, 0);
    ObjectFirst(ps, s);
    EventOfObject(Members(ps));
    PiecesComeBack(recs, tags, compact);
  }

  lemma {:induction false} TextsFit(vs: seq<bytes>)
    ensures forall i :: 0 <= i < |Texts(vs)| ==> NumbersFit(Texts(vs)[i])
  {
    if vs == [] {
    } else {
      TextsFit(vs[1..]);
    }
  }

  lemma {:induction false} MembersFit(ps: seq<Piece>)
    ensures NumbersFit(Obj(Members(ps)))
  {
    if ps == [] {
    } else {
      if ps[0].content.Many? {
        TextsFit(ps[0].content.vs);
      }
      MembersFit(ps[1..]);
      var ms := Members(ps);
      assert forall i :: 1 <= i < |ms| ==> ms[i] == Members(ps[1..])[i - 1];
    }
  }

  /** Encoded text meets everything ee_newEventFromJSON is specified for: it is a C string with
      complete escapes, and there are no numbers in it. */
  lemma {:induction false} EncodedIsReadable(recs: seq<Record>, tags: Option<seq<bytes>>, compact: bool)
    requires PlainNames(recs) && (tags.Some? ==> PlainTags(tags.value))
    requires !(compact && HasValueless(recs))
    ensures var s := EventText(recs, tags, compact) + [NUL];
      CString(s) && Outside(s, 0) && Parse(s).Ok? && NumbersFit(Parse(s).value)
  {
    hide EventText, ObjectText, Pieces, Members, ParseValue;
    var text, ps := EventText(recs, tags, compact), Pieces(recs, tags, compact);
    var s := text + [NUL];
    EventTextTame(recs, tags, compact);
    TameText(text);
    EventIsObject(recs, tags, compact);
    AtIs(s, 0, text);
    ObjectReads(ps, s, 0);
    ObjectFirst(ps, s);
    MembersFit(ps);
  }

  lemma {:induction false} ObjectFirst(ps: seq<Piece>, s: bytes)
    requires At(s, 0, ObjectText(ps))
    ensures Skip(s, 0) == 0
  {
    AtFirst(s, 0, ObjectText(ps));
  }

  // ---------- when nothing changes ----------

  predicate NulFreeValues(recs: seq<Record>) {
    forall i, j :: 0 <= i < |recs| && 0 <= j < |recs[i].values| ==> NulFree(recs[i].values[j])
  }

  lemma {:induction false} EachSame(name: bytes, vs: seq<bytes>, ws: seq<bytes>)
    requires |vs| == |ws|
    ensures Each(name, vs) == Each(name, ws) <==> vs == ws
  {
    if vs != [] {
      EachSame(name, vs[1..], ws[1..]);
      var a, b := Record(name, [vs[0]]), Record(name, [ws[0]]);
      SameFront([a], [b], Each(name, vs[1..]), Each(name, ws[1..]));
      HeadTail(vs);
      HeadTail(ws);
      assert [a] == [b] ==> [a][0].values[0] == [b][0].values[0];
    } else {
      assert ws == [];
    }
  }

  lemma {:induction false} DropNulsSame(vs: seq<bytes>)
    ensures DropNuls(vs) == vs <==> forall j :: 0 <= j < |vs| ==> NulFree(vs[j])
  {
    if vs == [] {
    } else {
      DropNulsSame(vs[1..]);
      HeadTail(vs);
      SameFront([DropNul(vs[0])], [vs[0]], DropNuls(vs[1..]), vs[1..]);
      assert [DropNul(vs[0])] == [vs[0]] <==> NulFree(vs[0]) by {
        assert [DropNul(vs[0])] == [vs[0]] ==> [DropNul(vs[0])][0] == vs[0];
      }
    }
  }

  lemma {:induction false} SpreadSame(rec: Record)
    ensures |Spread(Clean(rec))| == |Spread(rec)|
    ensures Spread(Clean(rec)) == Spread(rec) <==> forall j :: 0 <= j < |rec.values| ==> NulFree(rec.values[j])
  {
    var vs, ws := rec.values, DropNuls(rec.values);
    DropNulsSame(vs);
    if |vs| > 1 {
      EachSame(ListName(rec.name), ws, vs);
    } else if |vs| == 1 {
      Single(vs);
      Single(ws);
      assert Spread(Clean(rec)) == Spread(rec) ==> Spread(Clean(rec))[0].values[0] == Spread(rec)[0].values[0];
    }
  }

  lemma {:induction false} SpreadAllSame(recs: seq<Record>)
    ensures SpreadAll(CleanAll(recs)) == SpreadAll(recs) <==> NulFreeValues(recs)
  {
    if recs == [] {
    } else {
      SpreadSame(recs[0]);
      SpreadAllSame(recs[1..]);
      ConsTail(Clean(recs[0]), CleanAll(recs[1..]));
      SameFront(Spread(Clean(recs[0])), Spread(recs[0]), SpreadAll(CleanAll(recs[1..])), SpreadAll(recs[1..]));
      NulFreeSplit(recs);
    }
  }

  lemma {:induction false} NulFreeSplit(recs: seq<Record>)
    requires recs != []
    ensures NulFreeValues(recs)
      <==> (forall j :: 0 <= j < |recs[0].values| ==> NulFree(recs[0].values[j])) && NulFreeValues(recs[1..])
  {
    assert forall i :: 1 <= i < |recs| ==> recs[i] == recs[1..][i - 1];
  }

  // ---------- the ultra-compact form of a field without values ----------

  function LoneText(name: bytes): bytes {
    [QUOTE] + name + [QUOTE] + [COLON] + [QUOTE]
  }

  /** Where the name, the colon and the lone quote stand. */
  lemma {:induction false} LoneQuoteStands(name: bytes, more: bytes, s: bytes, p: nat, c: nat)
    requires PlainName(name) && Outside(s, p) && At(s, p, LoneText(name) + more) && c == p + |name| + 2
    requires more != [] && (more[0] == COMMA || more[0] == RBRACE)
    ensures ParseString(s, p) == Ok(name, c) && Peek(s, p) == QUOTE
    ensures Peek(s, c) == COLON && Peek(s, c + 1) == QUOTE
    ensures Peek(s, c + 2) == COMMA || Peek(s, c + 2) == RBRACE
  {
    hide At, ParseString, Outside, Quoted, NameByte;
    var k := Quoted(NameByte, name);
    QuotedName(name);
    NameByteSpells();
    PlainIsWritten(name);
    Assoc4(k, [COLON], [QUOTE], more);
    AtSplit(s, p, k, [COLON] + ([QUOTE] + more));
    QuotedReads(NameByte, name, s, p);
    AtSplit(s, c, [COLON], [QUOTE] + more);
    AtSplit(s, c + 1, [QUOTE], more);
    AtFirst(s, c, [COLON]);
    AtFirst(s, c + 1, [QUOTE]);
    AtFirst(s, c + 2, more);
  }

  /** The reader takes the quote character for the start of a string, which then begins with the
      comma or brace after it. */
  lemma {:induction false} LoneQuoteReads(name: bytes, more: bytes, s: bytes, p: nat)
    requires PlainName(name) && Outside(s, p) && At(s, p, LoneText(name) + more)
    requires more != [] && (more[0] == COMMA || more[0] == RBRACE)
    ensures Peek(s, p) == QUOTE
    ensures ParseMember(s, p).Ok? && ParseMember(s, p).value.key == Named(name)
    ensures ParseMember(s, p).value.value.Str? && ParseMember(s, p).value.value.text != []
  {
    hide At, ParseString, ParseMember, ParseValue, Outside, LoneText;
    var c := p + |name| + 2;
    LoneQuoteStands(name, more, s, p, c);
    SkipNothing(s, p);
    SkipNothing(s, c);
    SkipNothing(s, c + 1);
    OutsideStep(s, c);
    LoneQuoteValue(s, c + 1);
    var v := ParseValue(s, c + 1);
    MemberIs(s, p, name, c, v.value, v.next);
  }

  lemma {:induction false} LoneQuoteValue(s: bytes, p: nat)
    requires Outside(s, p) && Peek(s, p) == QUOTE && (Peek(s, p + 1) == COMMA || Peek(s, p + 1) == RBRACE)
    ensures ParseValue(s, p).Ok? && ParseValue(s, p).value.Str? && ParseValue(s, p).value.text != []
  {
    NotLiteral(s, p);
    assert Tokens(s, p + 1)[0] == Raw(s[p + 1]);
    assert Decode(s, p + 1)[0] == s[p + 1];
  }

  /** Every field before k has values, and field k has none. */
  predicate FirstValueless(recs: seq<Record>, k: nat) {
    k < |recs| && recs[k].values == [] && forall i :: 0 <= i < k ==> recs[i].values != []
  }

  lemma {:induction false} FindValueless(recs: seq<Record>) returns (k: nat)
    requires HasValueless(recs)
    ensures FirstValueless(recs, k)
  {
    k := 0;
    while recs[k].values != []
      invariant k < |recs| && forall i :: 0 <= i < k ==> recs[i].values != []
      decreases |recs| - k
    {
      var i :| 0 <= i < |recs| && recs[i].values == [];
      k := k + 1;
    }
  }

  /** The text of the fields up to the brace. */
  function FieldsBody(recs: seq<Record>): bytes {
    JoinTexts(FieldTexts(recs, true)) + [RBRACE]
  }

  lemma {:induction false} BodyStarts(recs: seq<Record>)
    requires recs != []
    ensures |recs| == 1 ==> FieldsBody(recs) == FieldText(recs[0], true) + [RBRACE]
    ensures |recs| > 1 ==> FieldsBody(recs) == FieldText(recs[0], true) + (SEPARATOR + FieldsBody(recs[1..]))
  {
    var t, ts := FieldText(recs[0], true), FieldTexts(recs[1..], true);
    hide FieldText;
    ConsTail(t, ts);
    if |recs| > 1 {
      Assoc4(t, SEPARATOR, JoinTexts(ts), [RBRACE]);
    }
  }

  lemma {:induction false} LeadingStarts(recs: seq<Record>, k: nat)
    requires 0 < k <= |recs| && PlainName(recs[0].name) && recs[0].values != []
    ensures Leading(FieldPieces(recs[..k], true))
      == FieldText(recs[0], true) + SEPARATOR + Leading(FieldPieces(recs[1..][..k - 1], true))
  {
    hide FieldText, PieceText;
    FieldIsPiece(recs[0], true);
    assert recs[..k][1..] == recs[1..][..k - 1];
    ConsTail(FieldPiece(recs[0], true), FieldPieces(recs[1..][..k - 1], true));
  }

  lemma {:induction false} ValuelessText(rec: Record)
    requires rec.values == []
    ensures FieldText(rec, true) == LoneText(rec.name)
  {}

  lemma {:induction false} NothingLeads(recs: seq<Record>)
    ensures Leading(FieldPieces(recs[..0], true)) == []
  {
    assert recs[..0] == [];
  }

  lemma {:induction false} FirstValuelessTail(recs: seq<Record>, k: nat)
    requires FirstValueless(recs, k) && k > 0
    ensures FirstValueless(recs[1..], k - 1) && recs[1..][k - 1] == recs[k] && recs[0].values != []
  {
    assert forall i :: 0 <= i < k - 1 ==> recs[1..][i] == recs[i + 1];
  }

  /** The ultra-compact text up to the first field without values, and the character after it. */
  lemma {:induction false} TextAtValueless(recs: seq<Record>, k: nat) returns (more: bytes)
    requires PlainNames(recs) && FirstValueless(recs, k)
    ensures FieldsBody(recs) == Leading(FieldPieces(recs[..k], true)) + (LoneText(recs[k].name) + more)
    ensures more != [] && (more[0] == COMMA || more[0] == RBRACE)
    decreases k
  {
    hide FieldText, FieldsBody, Leading, FieldPieces, LoneText;
    BodyStarts(recs);
    if k == 0 {
      more := if |recs| == 1 then [RBRACE] else SEPARATOR + FieldsBody(recs[1..]);
      ValuelessText(recs[0]);
      NothingLeads(recs);
      NothingBefore(LoneText(recs[0].name) + more);
    } else {
      FirstValuelessTail(recs, k);
      more := TextAtValueless(recs[1..], k - 1);
      LeadingStarts(recs, k);
      var t, rest := FieldText(recs[0], true), Leading(FieldPieces(recs[1..][..k - 1], true));
      Assoc4(t, SEPARATOR, rest, LoneText(recs[k].name) + more);
    }
  }

  lemma {:induction false} ObjectGives(s: bytes, p: nat)
    requires Outside(s, p) && Peek(s, p) == LBRACE && Peek(s, p + 1) == QUOTE
    ensures Outside(s, p + 1)
    ensures ParseValue(s, p) ==
      var r := ParseMembers(s, p + 1); if r.Ok? then Ok(Obj(r.value), r.next) else Fail(r.at)
  {
    NotLiteral(s, p);
    assert Skip(s, p + 1) == p + 1;
  }

  lemma {:induction false} SpreadAllConcat(a: seq<Record>, b: seq<Record>)
    ensures SpreadAll(a + b) == SpreadAll(a) + SpreadAll(b)
  {
    hide Spread;
    if a == [] {
      assert a + b == b;
    } else {
      SpreadAllConcat(a[1..], b);
      assert (a + b)[1..] == a[1..] + b;
      Assoc(Spread(a[0]), SpreadAll(a[1..]), SpreadAll(b));
    }
  }

  lemma {:induction false} SpreadAllLength(recs: seq<Record>)
    ensures |SpreadAll(CleanAll(recs))| == |SpreadAll(recs)|
  {
    if recs == [] {
    } else {
      SpreadSame(recs[0]);
      SpreadAllLength(recs[1..]);
      ConsTail(Clean(recs[0]), CleanAll(recs[1..]));
    }
  }

  /** Fields that agree up to one that has a value on one side only. */
  lemma {:induction false} Differ(recs: seq<Record>, k: nat, ms: seq<Member>)
    requires FirstValueless(recs, k)
    requires ms != [] && ms[0].value.Str? && ms[0].value.text != []
    ensures MemberFields(Members(FieldPieces(recs[..k], true)) + ms) != SpreadAll(recs)
  {
    hide SpreadAll, MemberFields, Members, FieldPieces, CleanAll;
    var good := recs[..k];
    var a, b := MemberFields(Members(FieldPieces(good, true))), SpreadAll(good);
    FieldsComeBack(good, true);
    SpreadAllLength(good);
    MemberFieldsConcat(Members(FieldPieces(good, true)), ms);
    assert recs == good + recs[k..];
    SpreadAllConcat(good, recs[k..]);
    SameFront(a, b, MemberFields(ms), SpreadAll(recs[k..]));
    FirstField(ms);
    FirstSpread(recs[k..]);
  }

  lemma {:induction false} FirstField(ms: seq<Member>)
    requires ms != [] && ms[0].value.Str?
    ensures MemberFields(ms) != [] && MemberFields(ms)[0].values == [ms[0].value.text]
  {
    StringEntry(ms[0].key, ms[0].value.text, []);
  }

  lemma {:induction false} FirstSpread(recs: seq<Record>)
    requires recs != [] && recs[0].values == []
    ensures SpreadAll(recs) != [] && SpreadAll(recs)[0].values == [[]]
  {}

  /** In ultra-compact mode an event with a field without values never comes back. */
  lemma {:induction false} ValuelessBreaks(recs: seq<Record>, k: nat)
    requires PlainNames(recs) && FirstValueless(recs, k)
    ensures Reload(recs, None, true) != Some(SpreadAll(recs))
  {
    hide EventOf, ParseValue, ParseMembers, ParseMember, JoinTexts, FieldTexts, SpreadAll, Leading, At, Members;
    hide Outside, Skip, Tame, MemberFields, FieldPieces;
    var text := EventText(recs, None, true);
    var s, body := text + [NUL], JoinTexts(FieldTexts(recs, true));
    EventTextTame(recs, None, true);
    TameText(text);
    AtIs(s, 0, text);
    assert MemberTexts(recs, None, true) == FieldTexts(recs, true);
    Assoc([LBRACE], body, [RBRACE]);
    AtSplit(s, 0, [LBRACE], body + [RBRACE]);
    AtFirst(s, 0, [LBRACE]);
    var more := TextAtValueless(recs, k);
    var ps, name := FieldPieces(recs[..k], true), recs[k].name;
    GoodPieces(recs, k);
    OutsideStep(s, 0);
    LeadingReads(ps, LoneText(name) + more, s, 1);
    LoneQuoteReads(name, more, s, 1 + |Leading(ps)|);
    ObjectGives(s, 0);
    SkipNothing(s, 0);
    var r, r2 := ParseMembers(s, 1), ParseMembers(s, 1 + |Leading(ps)|);
    FirstMember(s, 1 + |Leading(ps)|);
    if r.Ok? {
      Differ(recs, k, r2.value);
      EventOfObject(r.value);
    }
  }

  lemma {:induction false} FirstMember(s: bytes, p: nat)
    requires Outside(s, p) && ParseMember(s, p).Ok?
    ensures ParseMembers(s, p).Ok? ==> ParseMembers(s, p).value != []
    ensures ParseMembers(s, p).Ok? ==> ParseMembers(s, p).value[0] == ParseMember(s, p).value
  {}

  lemma {:induction false} GoodPieces(recs: seq<Record>, k: nat)
    requires PlainNames(recs) && FirstValueless(recs, k)
    ensures AllRegular(FieldPieces(recs[..k], true))
  {
    assert !HasValueless(recs[..k]);
    FieldsArePieces(recs[..k], true);
  }

  /** An event without tags comes back with every field as it was, lists spread over several fields,
      exactly when no value has a NUL byte in it and, in ultra-compact mode, no field lacks values. */
  lemma {:induction false} EventRoundTrips(recs: seq<Record>, compact: bool)
    requires PlainNames(recs)
    ensures Reload(recs, None, compact) == Some(SpreadAll(recs))
      <==> NulFreeValues(recs) && !(compact && HasValueless(recs))
  {
    if compact && HasValueless(recs) {
      var k := FindValueless(recs);
      ValuelessBreaks(recs, k);
    } else {
      EventComesBack(recs, None, compact);
      NoTagFields(SpreadAll(CleanAll(recs)));
      SpreadAllSame(recs);
    }
  }

  /** The smallest event that does not come back: one field without values, ultra-compact. */
  lemma {:induction false} CompactValuelessExample()
    ensures EventText([Record([0x61], [])], None, true) == [LBRACE, QUOTE, 0x61, QUOTE, COLON, QUOTE, RBRACE]
    ensures Reload([Record([0x61], [])], None, true) != Some([Record([0x61], [[]])])
  {
    var recs := [Record([0x61], [])];
    assert FieldTexts(recs, true) == [LoneText([0x61])];
    ValuelessBreaks(recs, 0);
    assert Spread(recs[0]) + [] == Spread(recs[0]) && recs[1..] == [];
  }

  // ---------- names that are not plain ----------

  /** A name that, written between quotes, reads as a whole field and the name of another. */
  function ForgedName(a: bytes, b: bytes, c: bytes, compact: bool): bytes {
    a + ([QUOTE] + Colon(compact) + Quoted(EncodeByte, b) + SEPARATOR + [QUOTE]) + c
  }

  lemma {:induction false} ForgedGroups(q: bytes, a: bytes, colon: bytes, b: bytes, sep: bytes, c: bytes, rest: bytes)
    ensures q + (a + (q + colon + b + sep + q) + c) + rest == (q + a + q + colon + b) + sep + (q + c + rest)
  {}

  /** A separator and the fields that follow, if there are any. */
  function Following(recs: seq<Record>, compact: bool): bytes {
    if recs == [] then [] else SEPARATOR + JoinTexts(FieldTexts(recs, compact))
  }

  lemma {:induction false} JoinFirst(rec: Record, recs: seq<Record>, compact: bool)
    ensures JoinTexts(FieldTexts([rec] + recs, compact)) == FieldText(rec, compact) + Following(recs, compact)
  {
    hide FieldText;
    var t, ts := FieldText(rec, compact), FieldTexts(recs, compact);
    ConsTail(rec, recs);
    ConsTail(t, ts);
    if recs != [] {
      Assoc(t, SEPARATOR, JoinTexts(ts));
    }
  }

  lemma {:induction false} ForgedField(a: bytes, b: bytes, c: bytes, vs: seq<bytes>, compact: bool)
    ensures FieldText(Record(ForgedName(a, b, c, compact), vs), compact)
      == FieldText(Record(a, [b]), compact) + SEPARATOR + FieldText(Record(c, vs), compact)
  {
    hide FieldText, ValuesText, Colon, Quoted;
    OneValueText(a, b, compact);
    NameThenRest(Record(c, vs), compact);
    NameThenRest(Record(ForgedName(a, b, c, compact), vs), compact);
    ForgedGroups([QUOTE], a, Colon(compact), Quoted(EncodeByte, b), SEPARATOR, c, AfterName(vs, compact));
  }

  /** The forged field reads as two fields, whatever fields stand before and after it. */
  lemma {:induction false} ForgedJoin(pre: seq<Record>, forged: Record, one: Record, two: Record, post: seq<Record>,
                                      compact: bool)
    requires FieldText(forged, compact) == FieldText(one, compact) + SEPARATOR + FieldText(two, compact)
    ensures JoinTexts(FieldTexts(pre + ([forged] + post), compact))
      == JoinTexts(FieldTexts(pre + ([one, two] + post), compact))
    decreases pre
  {
    hide JoinTexts, FieldTexts, FieldText, Following;
    if pre == [] {
      NothingBefore([forged] + post);
      NothingBefore([one, two] + post);
      TwoFirst(one, two, post);
      JoinFirst(forged, post, compact);
      JoinFirst(one, [two] + post, compact);
      JoinFirst(two, post, compact);
      FollowingOne(two, post, compact);
      Assoc4(FieldText(one, compact), SEPARATOR, FieldText(two, compact), Following(post, compact));
    } else {
      ForgedJoin(pre[1..], forged, one, two, post, compact);
      HeadTail(pre);
      Assoc([pre[0]], pre[1..], [forged] + post);
      Assoc([pre[0]], pre[1..], [one, two] + post);
      JoinFirst(pre[0], pre[1..] + ([forged] + post), compact);
      JoinFirst(pre[0], pre[1..] + ([one, two] + post), compact);
      FollowingSame(pre[1..] + ([forged] + post), pre[1..] + ([one, two] + post), compact);
    }
  }

  lemma {:induction false} FollowingOne(rec: Record, recs: seq<Record>, compact: bool)
    ensures Following([rec] + recs, compact) == SEPARATOR + JoinTexts(FieldTexts([rec] + recs, compact))
  {}

  lemma {:induction false} FollowingSame(recs: seq<Record>, recs': seq<Record>, compact: bool)
    requires recs != [] && recs' != []
    requires JoinTexts(FieldTexts(recs, compact)) == JoinTexts(FieldTexts(recs', compact))
    ensures Following(recs, compact) == Following(recs', compact)
  {}

  lemma {:induction false} TwoFirst(one: Record, two: Record, post: seq<Record>)
    ensures [one, two] + post == [one] + ([two] + post)
  {}

  lemma {:induction false} WithoutTags(recs: seq<Record>, compact: bool)
    ensures EventText(recs, None, compact) == [LBRACE] + JoinTexts(FieldTexts(recs, compact)) + [RBRACE]
  {
    assert [] + FieldTexts(recs, compact) == FieldTexts(recs, compact);
  }

  function AfterName(vs: seq<bytes>, compact: bool): bytes {
    [QUOTE] + Colon(compact) + ValuesText(vs, compact)
  }

  lemma {:induction false} NameThenRest(rec: Record, compact: bool)
    ensures FieldText(rec, compact) == [QUOTE] + rec.name + AfterName(rec.values, compact)
  {
    Assoc4([QUOTE] + rec.name, [QUOTE], Colon(compact), ValuesText(rec.values, compact));
    Assoc([QUOTE], Colon(compact), ValuesText(rec.values, compact));
  }

  lemma {:induction false} OneValueText(name: bytes, v: bytes, compact: bool)
    ensures FieldText(Record(name, [v]), compact)
      == [QUOTE] + name + [QUOTE] + Colon(compact) + Quoted(EncodeByte, v)
  {}

  lemma {:induction false} PlainAround(pre: seq<Record>, one: Record, two: Record, post: seq<Record>)
    requires PlainNames(pre) && PlainNames(post) && PlainName(one.name) && PlainName(two.name)
    ensures PlainNames(pre + ([one, two] + post))
    ensures HasValueless(pre + ([one, two] + post))
      ==> HasValueless(pre) || HasValueless(post) || one.values == [] || two.values == []
  {}

  lemma {:induction false} SpreadAround(pre: seq<Record>, xs: seq<Record>, post: seq<Record>)
    ensures |SpreadAll(pre + (xs + post))| == |SpreadAll(pre)| + |SpreadAll(xs)| + |SpreadAll(post)|
  {
    hide SpreadAll;
    SpreadAllConcat(pre, xs + post);
    SpreadAllConcat(xs, post);
  }

  /** Names are written without escaping, so a name with quotes in it can read as two fields: an event
      with a field of such a name comes back with one field more. */
  lemma {:induction false} ForgedNameBreaks(pre: seq<Record>, a: bytes, b: bytes, c: bytes, vs: seq<bytes>,
                                            post: seq<Record>, compact: bool)
    requires PlainNames(pre) && PlainName(a) && PlainName(c) && PlainNames(post)
    requires compact ==> !HasValueless(pre) && vs != [] && !HasValueless(post)
    ensures var recs := pre + ([Record(ForgedName(a, b, c, compact), vs)] + post);
      var text := EventText(recs, None, compact);
      && Outside(text + [NUL], 0)
      && LoadText(text) == Some(SpreadAll(CleanAll(pre + ([Record(a, [b]), Record(c, vs)] + post))))
      && LoadText(text) != Some(SpreadAll(recs))
  {
    hide LoadText, EventText, ForgedName, PlainNames, PlainName, HasValueless, SpreadAll, CleanAll, JoinTexts;
    hide FieldText, FieldTexts;
    var forged, one, two := Record(ForgedName(a, b, c, compact), vs), Record(a, [b]), Record(c, vs);
    var recs, read := pre + ([forged] + post), pre + ([one, two] + post);
    ForgedField(a, b, c, vs, compact);
    ForgedJoin(pre, forged, one, two, post, compact);
    WithoutTags(recs, compact);
    WithoutTags(read, compact);
    PlainAround(pre, one, two, post);
    EventTextTame(read, None, compact);
    TameText(EventText(read, None, compact));
    EventComesBack(read, None, compact);
    NoTagFields(SpreadAll(CleanAll(read)));
    SpreadAllLength(read);
    SpreadAround(pre, [forged], post);
    SpreadAround(pre, [one, two], post);
    SpreadCount(one, two);
    SpreadCount(two, one);
    SpreadCount(forged, two);
  }

  lemma {:induction false} NoTagFields(recs: seq<Record>)
    ensures TagFields(None) + recs == recs
  {}

  lemma {:induction false} SpreadCount(one: Record, two: Record)
    ensures |SpreadAll([one])| == if |one.values| > 1 then |one.values| else 1
    ensures |SpreadAll([one, two])| == |SpreadAll([one])| + |SpreadAll([two])|
  {
    assert [one][1..] == [] && [one, two][1..] == [two];
  }
}
