/** json_enc.c: the JSON text of an event. */
module JsonEncoder {
  import opened Bytes
  import opened Seqs
  import opened CText
  import opened JsonString
  import opened Fields
  import opened Events

  // ---------- the text ----------

  /** The digits 0-9 and A-F. */
  function UpperHexDigit(d: nat): (c: byte)
    requires d < 16
    ensures IsHex(c) && HexValue(c) == d
  {
    if d < 10 then ZERO + d else 0x41 + d - 10
  }

  /** The escape of one byte; bytes above 0x7F are copied. */
  function EncodeByte(c: byte): (e: bytes)
    ensures e != []
  {
    if 0x23 <= c <= 0x5B || c >= 0x5D || c == 0x20 || c == 0x21 then [c]
    else if c == QUOTE || c == BACKSLASH then [BACKSLASH, c]
    else if c == BACKSPACE then [BACKSLASH, LOWER_B]
    else if c == FORMFEED then [BACKSLASH, LOWER_F]
    else if c == LINEFEED then [BACKSLASH, LOWER_N]
    else if c == RETURN then [BACKSLASH, LOWER_R]
    else if c == TAB then [BACKSLASH, LOWER_T]
    else [BACKSLASH, LOWER_U, ZERO, ZERO, UpperHexDigit(c / 16), UpperHexDigit(c % 16)]
  }

  lemma {:induction false} EncodeByteSpells()
    ensures forall c :: Spells(EncodeByte(c), c)
  {
    forall c: byte ensures Spells(EncodeByte(c), c) {
      var e := EncodeByte(c);
      if |e| == 6 {
        assert Hex4(e, 2) == HexValue(e[4]) * 16 + HexValue(e[5]);
      }
    }
  }

  /** And none of the escapes is longer than the standard asks for. */
  lemma {:induction false} EncodeByteShortest(c: byte)
    ensures Shortest(EncodeByte(c), c)
  {
    var e := EncodeByte(c);
    if |e| == 6 {
      assert Hex4(e, 2) == HexValue(e[4]) * 16 + HexValue(e[5]);
      NoLetter(c);
    }
  }

  function JoinQuoted(esc: byte -> bytes, vs: seq<bytes>): bytes {
    if vs == [] then []
    else if |vs| == 1 then Quoted(esc, vs[0])
    else Quoted(esc, vs[0]) + [COMMA] + JoinQuoted(esc, vs[1..])
  }

  function ListText(esc: byte -> bytes, vs: seq<bytes>): bytes {
    [LBRACKET] + JoinQuoted(esc, vs) + [RBRACKET]
  }

  /** In ultra-compact mode a field without values writes a single quote character. */
  function ValuesText(vs: seq<bytes>, compact: bool): (t: bytes)
    ensures t != []
  {
    if |vs| == 0 then (if compact then [QUOTE] else [QUOTE, QUOTE])
    else if |vs| == 1 then Quoted(EncodeByte, vs[0])
    else ListText(EncodeByte, vs)
  }

  function Colon(compact: bool): bytes {
    if compact then [COLON] else [COLON, SPACE]
  }

  function FieldText(rec: Record, compact: bool): bytes {
    [QUOTE] + rec.name + [QUOTE] + Colon(compact) + ValuesText(rec.values, compact)
  }

  /** event.tags */
  const TAGS_NAME: bytes := [0x65, 0x76, 0x65, 0x6E, 0x74, 0x2E, 0x74, 0x61, 0x67, 0x73]

  function Verbatim(c: byte): bytes {
    [c]
  }

  /** Tag names are not escaped. */
  function TagsText(tags: seq<bytes>): bytes {
    [QUOTE] + TAGS_NAME + [QUOTE] + [COLON] + ListText(Verbatim, tags)
  }

  function FieldTexts(recs: seq<Record>, compact: bool): seq<bytes> {
    if recs == [] then [] else [FieldText(recs[0], compact)] + FieldTexts(recs[1..], compact)
  }

  /** The members of the event object: the tags, if they are wanted and there, and the fields. */
  function MemberTexts(recs: seq<Record>, tags: Option<seq<bytes>>, compact: bool): seq<bytes> {
    (if tags.Some? then [TagsText(tags.value)] else []) + FieldTexts(recs, compact)
  }

  const SEPARATOR: bytes := [COMMA, SPACE]

  function JoinTexts(ts: seq<bytes>): bytes {
    if ts == [] then []
    else if |ts| == 1 then ts[0]
    else ts[0] + SEPARATOR + JoinTexts(ts[1..])
  }

  function EventText(recs: seq<Record>, tags: Option<seq<bytes>>, compact: bool): bytes {
    [LBRACE] + JoinTexts(MemberTexts(recs, tags, compact)) + [RBRACE]
  }

  // ---------- what the ultra-compact mode saves ----------

  function Valueless(recs: seq<Record>): nat {
    if recs == [] then 0 else (if recs[0].values == [] then 1 else 0) + Valueless(recs[1..])
  }

  lemma {:induction false} FieldSaves(rec: Record)
    ensures |FieldText(rec, false)| == |FieldText(rec, true)| + 1 + (if rec.values == [] then 1 else 0)
  {}

  lemma {:induction false} FieldsSave(recs: seq<Record>)
    ensures |FieldTexts(recs, false)| == |recs| == |FieldTexts(recs, true)|
    ensures |JoinTexts(FieldTexts(recs, false))| == |JoinTexts(FieldTexts(recs, true))| + |recs| + Valueless(recs)
  {
    hide FieldText;
    if recs == [] {
    } else {
      FieldSaves(recs[0]);
      FieldsSave(recs[1..]);
      ConsTail(FieldText(recs[0], false), FieldTexts(recs[1..], false));
      ConsTail(FieldText(recs[0], true), FieldTexts(recs[1..], true));
    }
  }

  /** One space for each field, and the second quote of each field without values. */
  lemma {:induction false} CompactSaves(recs: seq<Record>, tags: Option<seq<bytes>>)
    ensures |EventText(recs, tags, false)| == |EventText(recs, tags, true)| + |recs| + Valueless(recs)
  {
    hide FieldTexts, TagsText;
    FieldsSave(recs);
    if tags.Some? {
      ConsTail(TagsText(tags.value), FieldTexts(recs, false));
      ConsTail(TagsText(tags.value), FieldTexts(recs, true));
    } else {
      NothingBefore(FieldTexts(recs, false));
      NothingBefore(FieldTexts(recs, true));
    }
  }

  // ---------- the encoder ----------

  /** numbuf, filled from its end; the two upper digits of a byte are zero. */
  method HexDigits(c: byte) returns (numbuf: bytes)
    ensures numbuf == [ZERO, ZERO, UpperHexDigit(c / 16), UpperHexDigit(c % 16)]
  {
    var buf := new byte[4];
    var j, rest: nat := 0, c;
    while j < 4
      invariant 0 <= j <= 4
      invariant rest == (if j == 0 then c else if j == 1 then c / 16 else 0)
      invariant j >= 1 ==> buf[3] == UpperHexDigit(c % 16)
      invariant j >= 2 ==> buf[2] == UpperHexDigit(c / 16)
      invariant j >= 3 ==> buf[1] == ZERO
      invariant j >= 4 ==> buf[0] == ZERO
    {
      buf[3 - j] := UpperHexDigit(rest % 16);
      rest := rest / 16;
      j := j + 1;
    }
    numbuf := buf[..];
  }

  /** ee_addValue_JSON */
  method AddValue(v: bytes, str: bytes) returns (str': bytes)
    ensures str' == str + Quoted(EncodeByte, v)
  {
    str' := str + [QUOTE];
    var i := 0;
    ghost var start := str';
    assert start + EscapeWith(EncodeByte, v[..0]) == start;
    while i < |v|
      invariant i <= |v| && str' == start + EscapeWith(EncodeByte, v[..i])
    {
      var c := v[i];
      EscapeWithAppend(EncodeByte, v[..i], c);
      assert v[..i + 1] == v[..i] + [c];
      Assoc(start, EscapeWith(EncodeByte, v[..i]), EncodeByte(c));
      str' := AddByte(c, str');
      i := i + 1;
    }
    assert v[..i] == v;
    str' := str' + [QUOTE];
    assert start + EscapeWith(EncodeByte, v) + [QUOTE] == str + Quoted(EncodeByte, v);
  }

  /** The body of its loop. The case for the slash is never reached. */
  method AddByte(c: byte, str: bytes) returns (str': bytes)
    ensures str' == str + EncodeByte(c)
  {
    if (c >= 0x23 && c <= 0x5B) || c >= 0x5D || c == 0x20 || c == 0x21 {
      str' := str + [c];
    } else {
      match c {
        case 0x00 => str' := str + [BACKSLASH, LOWER_U, ZERO, ZERO, ZERO, ZERO];
        case 0x22 => str' := str + [BACKSLASH, QUOTE];
        case 0x5C => str' := str + [BACKSLASH, BACKSLASH];
        case 0x08 => str' := str + [BACKSLASH, LOWER_B];
        case 0x0C => str' := str + [BACKSLASH, LOWER_F];
        case 0x0A => str' := str + [BACKSLASH, LOWER_N];
        case 0x0D => str' := str + [BACKSLASH, LOWER_R];
        case 0x09 => str' := str + [BACKSLASH, LOWER_T];
        case _ =>
          var numbuf := HexDigits(c);
          str' := str + [BACKSLASH, LOWER_U];
          str' := str' + numbuf;
          assert str' == str + ([BACKSLASH, LOWER_U] + numbuf);
      }
    }
  }

  /** The text of the values from the k-th on, each with a comma before it. */
  function CommaValues(vs: seq<bytes>): bytes {
    if vs == [] then [] else [COMMA] + Quoted(EncodeByte, vs[0]) + CommaValues(vs[1..])
  }

  lemma {:induction false} JoinIsCommas(vs: seq<bytes>)
    requires vs != []
    ensures JoinQuoted(EncodeByte, vs) == Quoted(EncodeByte, vs[0]) + CommaValues(vs[1..])
    decreases |vs|
  {
    if |vs| > 1 {
      JoinIsCommas(vs[1..]);
      var q, q1, rest := Quoted(EncodeByte, vs[0]), Quoted(EncodeByte, vs[1]), CommaValues(vs[2..]);
      assert vs[1..][1..] == vs[2..];
      Assoc(q, [COMMA], q1 + rest);
      Assoc([COMMA], q1, rest);
    } else {
      assert CommaValues(vs[1..]) == [];
    }
  }

  /** The list part of ee_addField_JSON: the values in the nodes, each after a comma. */
  method AddNodeValues(field: Field, str: bytes) returns (str': bytes)
    requires field.Valid()
    ensures str' == str + CommaValues(ValuesOf(field.nodes))
  {
    str' := str;
    var valnode := field.valroot;
    ghost var i, vs := 0, ValuesOf(field.nodes);
    ValuesAt(field.nodes);
    assert vs[0..] == vs;
    while valnode != null
      invariant 0 <= i <= |field.nodes| && valnode == NthNode(field.nodes, i)
      invariant str' + CommaValues(vs[i..]) == str + CommaValues(vs)
      decreases |field.nodes| - i
    {
      assert vs[i..][0] == vs[i] && vs[i..][1..] == vs[i + 1..];
      Assoc4(str', [COMMA], Quoted(EncodeByte, vs[i]), CommaValues(vs[i + 1..]));
      Assoc([COMMA], Quoted(EncodeByte, vs[i]), CommaValues(vs[i + 1..]));
      str' := str' + [COMMA];
      str' := AddValue(valnode.val, str');
      valnode := valnode.next;
      i := i + 1;
    }
    assert vs[i..] == [] && str' + [] == str';
  }

  /** The value part of ee_addField_JSON. */
  method AddValues(field: Field, compact: bool, str: bytes) returns (str': bytes)
    requires field.Valid()
    ensures str' == str + ValuesText(field.Values(), compact)
  {
    ghost var vs := field.Values();
    if field.nVals == 0 {
      if compact {
        str' := str + [QUOTE];
      } else {
        str' := str + [QUOTE, QUOTE];
      }
    } else if field.nVals == 1 {
      str' := AddValue(field.val, str);
    } else {
      str' := str + [LBRACKET];
      str' := AddValue(field.val, str');
      str' := AddNodeValues(field, str');
      JoinIsCommas(vs);
      assert vs[1..] == ValuesOf(field.nodes);
      var q, rest := Quoted(EncodeByte, vs[0]), CommaValues(vs[1..]);
      Assoc(str + [LBRACKET], q, rest);
      Assoc(str, [LBRACKET], q + rest);
      assert str' == str + ([LBRACKET] + JoinQuoted(EncodeByte, vs));
      Assoc(str, [LBRACKET] + JoinQuoted(EncodeByte, vs), [RBRACKET]);
      str' := str' + [RBRACKET];
    }
  }

  /** ee_addField_JSON */
  method AddField(field: Field, compact: bool, str: bytes) returns (str': bytes)
    requires field.Valid() && field.name.Some?
    ensures str' == str + FieldText(Record(field.name.value, field.Values()), compact)
  {
    str' := str + [QUOTE];
    str' := str' + field.name.value;
    if compact {
      str' := str' + [QUOTE, COLON];
    } else {
      str' := str' + [QUOTE, COLON, SPACE];
    }
    ghost var head := [QUOTE] + field.name.value + [QUOTE] + Colon(compact);
    assert str' == str + head;
    Assoc(str, head, ValuesText(field.Values(), compact));
    str' := AddValues(field, compact, str');
  }

  // ---------- whole events ----------

  /** Texts with separators between them, and before the first one if something precedes. */
  function Separated(ts: seq<bytes>, sep: bytes, need: bool): bytes {
    if ts == [] then [] else (if need then sep else []) + ts[0] + Separated(ts[1..], sep, true)
  }

  lemma {:induction false} JoinIsSeparated(ts: seq<bytes>)
    ensures JoinTexts(ts) == Separated(ts, SEPARATOR, false)
    ensures ts != [] ==> SEPARATOR + JoinTexts(ts) == Separated(ts, SEPARATOR, true)
  {
    if ts == [] {
    } else {
      JoinIsSeparated(ts[1..]);
      Assoc(SEPARATOR, ts[0], Separated(ts[1..], SEPARATOR, true));
      Assoc(ts[0], SEPARATOR, JoinTexts(ts[1..]));
      assert [] + ts[0] == ts[0] && ts[0] + [] == ts[0];
    }
  }

  function QuotedTexts(esc: byte -> bytes, vs: seq<bytes>): seq<bytes> {
    if vs == [] then [] else [Quoted(esc, vs[0])] + QuotedTexts(esc, vs[1..])
  }

  lemma {:induction false} JoinQuotedIsSeparated(esc: byte -> bytes, vs: seq<bytes>)
    ensures JoinQuoted(esc, vs) == Separated(QuotedTexts(esc, vs), [COMMA], false)
    ensures vs != [] ==> [COMMA] + JoinQuoted(esc, vs) == Separated(QuotedTexts(esc, vs), [COMMA], true)
  {
    if vs == [] {
    } else {
      JoinQuotedIsSeparated(esc, vs[1..]);
      var ts, q := QuotedTexts(esc, vs), Quoted(esc, vs[0]);
      assert ts[1..] == QuotedTexts(esc, vs[1..]);
      Assoc([COMMA], q, Separated(ts[1..], [COMMA], true));
      Assoc(q, [COMMA], JoinQuoted(esc, vs[1..]));
      assert [] + q == q && q + [] == q;
    }
  }

  lemma {:induction false} VerbatimIs(v: bytes)
    ensures EscapeWith(Verbatim, v) == v
  {
    if v == [] {
    } else {
      VerbatimIs(v[1..]);
      assert v == [v[0]] + v[1..];
    }
  }

  /** ee_addTags_JSON */
  method AddTags(tags: seq<bytes>, str: bytes) returns (str': bytes)
    ensures str' == str + TagsText(tags)
  {
    ghost var head := [QUOTE] + TAGS_NAME + [QUOTE] + [COLON];
    str' := str + ([QUOTE] + TAGS_NAME + [QUOTE, COLON, LBRACKET]);
    assert str' == (str + head) + [LBRACKET];
    ghost var start := str';
    var needComma := false;
    var k := 0;
    ghost var ts := QuotedTexts(Verbatim, tags);
    assert tags[0..] == tags;
    while k < |tags|
      invariant k <= |tags| && needComma == (k > 0)
      invariant str' + Separated(QuotedTexts(Verbatim, tags[k..]), [COMMA], needComma)
             == start + Separated(ts, [COMMA], false)
    {
      ghost var q, rest := Quoted(Verbatim, tags[k]), Separated(QuotedTexts(Verbatim, tags[k + 1..]), [COMMA], true);
      assert tags[k..][0] == tags[k] && tags[k..][1..] == tags[k + 1..];
      ghost var ts' := QuotedTexts(Verbatim, tags[k..]);
      assert ts'[0] == q && ts'[1..] == QuotedTexts(Verbatim, tags[k + 1..]);
      var sep := if needComma then [COMMA] else [];
      Assoc4(str', sep, q, rest);
      Assoc(sep, q, rest);
      str' := str' + sep;
      needComma := true;
      VerbatimIs(tags[k]);
      str' := str' + ([QUOTE] + tags[k] + [QUOTE]);
      k := k + 1;
    }
    assert tags[k..] == [] && str' + [] == str';
    JoinQuotedIsSeparated(Verbatim, tags);
    Assoc(str + head, [LBRACKET], JoinQuoted(Verbatim, tags));
    Assoc(str + head, [LBRACKET] + JoinQuoted(Verbatim, tags), [RBRACKET]);
    Assoc(str, head, ListText(Verbatim, tags));
    str' := str' + [RBRACKET];
  }

  lemma {:induction false} FieldTextsNext(recs: seq<Record>, i: nat, compact: bool)
    requires i < |recs|
    ensures FieldTexts(recs[i..], compact)
      == [FieldText(recs[i], compact)] + FieldTexts(recs[i + 1..], compact)
  {
    assert recs[i..][1..] == recs[i + 1..];
  }

  /** The loop over the fields of the bucket. */
  method AddFields(fields: FieldBucket, need: bool, compact: bool, str: bytes) returns (str': bytes)
    requires fields.Valid()
    ensures str' == str + Separated(FieldTexts(fields.contents, compact), SEPARATOR, need)
  {
    hide FieldText;
    str' := str;
    var bNeedComma := need;
    var node := fields.root;
    ghost var i, recs := 0, fields.contents;
    assert recs[0..] == recs;
    while node != null
      invariant 0 <= i <= |fields.nodes| && node == NthBucketNode(fields.nodes, i)
      invariant str' + Separated(FieldTexts(recs[i..], compact), SEPARATOR, bNeedComma)
             == str + Separated(FieldTexts(recs, compact), SEPARATOR, need)
      decreases |fields.nodes| - i
    {
      assert Says(fields.nodes[i].field, recs[i], fields.owned);
      FieldTextsNext(recs, i, compact);
      var sep := if bNeedComma then SEPARATOR else [];
      ghost var t, rest := FieldText(recs[i], compact), Separated(FieldTexts(recs[i + 1..], compact), SEPARATOR, true);
      ConsTail(t, FieldTexts(recs[i + 1..], compact));
      Assoc4(str', sep, t, rest);
      Assoc(sep, t, rest);
      str' := str' + sep;
      bNeedComma := true;
      str' := AddField(node.field, compact, str');
      node := node.next;
      i := i + 1;
    }
    assert recs[i..] == [] && str' + [] == str';
  }

  /** ee_fmtEventToJSON */
  method FmtEventToJSON(event: Event, tags: Option<seq<bytes>>, includeFlatTags: bool, compact: bool)
    returns (str: bytes)
    requires event.Valid()
    ensures str == EventText(event.Contents(), if includeFlatTags then tags else None, compact)
  {
    str := [LBRACE];
    var bNeedComma := false;
    ghost var shown := if includeFlatTags then tags else None;
    ghost var head := if shown.Some? then [TagsText(shown.value)] else [];
    if includeFlatTags && tags.Some? {
      str := AddTags(tags.value, str);
      bNeedComma := true;
    }
    ghost var texts := FieldTexts(event.Contents(), compact);
    if event.fields != null {
      str := AddFields(event.fields, bNeedComma, compact, str);
    } else {
      assert str + [] == str;
    }
    JoinIsSeparated(head + texts);
    if shown.Some? {
      ConsTail(TagsText(shown.value), texts);
      assert [] + TagsText(shown.value) == TagsText(shown.value);
      Assoc([LBRACE], TagsText(shown.value), Separated(texts, SEPARATOR, true));
    } else {
      assert head + texts == texts;
    }
    str := str + [RBRACE];
  }
}
