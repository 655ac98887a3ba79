/** syslog_enc.c: an event as a structured data element of RFC 5424, and why the text determines the
    event. */
module SyslogEncoder {
  import opened Bytes
  import opened Seqs
  import opened JsonString
  import opened Fields
  import opened Events

  // ---------- the text ----------

  function SyslogByte(c: byte): (e: bytes)
    ensures e != []
  {
    if c == NUL then [BACKSLASH, ZERO]
    else if c == LINEFEED then [BACKSLASH, LOWER_N]
    else if c == COMMA || c == BACKSLASH || c == RBRACKET || c == QUOTE then [BACKSLASH, c]
    else [c]
  }

  function ValueText(v: bytes): bytes {
    EscapeWith(SyslogByte, v)
  }

  /** Each value after a comma. */
  function CommaValues(vs: seq<bytes>): bytes {
    if vs == [] then [] else [COMMA] + ValueText(vs[0]) + CommaValues(vs[1..])
  }

  function ValuesText(vs: seq<bytes>): bytes {
    if vs == [] then [] else ValueText(vs[0]) + CommaValues(vs[1..])
  }

  function FieldText(rec: Record): bytes {
    rec.name + [EQUALS, QUOTE] + ValuesText(rec.values) + [QUOTE]
  }

  function FieldsText(recs: seq<Record>): bytes {
    if recs == [] then [] else [SPACE] + FieldText(recs[0]) + FieldsText(recs[1..])
  }

  function JoinTags(tags: seq<bytes>): bytes {
    if tags == [] then [] else if |tags| == 1 then tags[0] else tags[0] + [COMMA] + JoinTags(tags[1..])
  }

  /** " event.tags=" */
  const TAGS_HEAD: bytes := [SPACE, 0x65, 0x76, 0x65, 0x6E, 0x74, 0x2E, 0x74, 0x61, 0x67, 0x73, EQUALS, QUOTE]

  function TagsText(tags: Option<seq<bytes>>): bytes {
    if tags.None? then [] else TAGS_HEAD + JoinTags(tags.value) + [QUOTE]
  }

  /** [cee@115 */
  const ELEMENT_HEAD: bytes := [LBRACKET, 0x63, 0x65, 0x65, 0x40, 0x31, 0x31, 0x35]

  function EventText(recs: seq<Record>, tags: Option<seq<bytes>>): bytes {
    ELEMENT_HEAD + TagsText(tags) + FieldsText(recs) + [RBRACKET]
  }

  // ---------- the encoder ----------

  /** ee_addValue_Syslog */
  method AddValue(v: bytes, str: bytes) returns (str': bytes)
    ensures str' == str + ValueText(v)
  {
    str' := str;
    var i := 0;
    assert str + ValueText(v[..0]) == str;
    while i < |v|
      invariant i <= |v| && str' == str + ValueText(v[..i])
    {
      var c := v[i];
      EscapeWithAppend(SyslogByte, v[..i], c);
      assert v[..i + 1] == v[..i] + [c];
      Assoc(str, ValueText(v[..i]), SyslogByte(c));
      match c {
        case 0x00 => str' := str' + [BACKSLASH, ZERO];
        case 0x0A => str' := str' + [BACKSLASH, LOWER_N];
        case 0x2C => str' := str' + [BACKSLASH, COMMA];
        case 0x5C => str' := str' + [BACKSLASH, BACKSLASH];
        case 0x5D => str' := str' + [BACKSLASH, RBRACKET];
        case 0x22 => str' := str' + [BACKSLASH, QUOTE];
        case _ => str' := str' + [c];
      }
      i := i + 1;
    }
    assert v[..i] == v;
  }

  method AddNodeValues(field: Field, str: bytes) returns (str': bytes)
    requires field.Valid()
    ensures str' == str + CommaValues(ValuesOf(field.nodes))
  {
    hide ValueText;
    str' := str;
    var valnode := field.valroot;
    ghost var i, vs := 0, ValuesOf(field.nodes);
    ValuesAt(field.nodes);
    assert vs[0..] == vs;
    while valnode != null
      invariant 0 <= i <= |field.nodes| && valnode == NthNode(field.nodes, i)
      invariant str' + CommaValues(vs[i..]) == str + CommaValues(vs)
      decreases |field.nodes| - i
    {
      assert vs[i..][0] == vs[i] && vs[i..][1..] == vs[i + 1..];
      Assoc4(str', [COMMA], ValueText(vs[i]), CommaValues(vs[i + 1..]));
      Assoc([COMMA], ValueText(vs[i]), CommaValues(vs[i + 1..]));
      str' := str' + [COMMA];
      str' := AddValue(valnode.val, str');
      valnode := valnode.next;
      i := i + 1;
    }
    assert vs[i..] == [] && str' + [] == str';
  }

  /** ee_addField_Syslog */
  method AddField(field: Field, str: bytes) returns (str': bytes)
    requires field.Valid() && field.name.Some?
    ensures str' == str + FieldText(Record(field.name.value, field.Values()))
  {
    ghost var vs, head := field.Values(), field.name.value + [EQUALS, QUOTE];
    str' := str + field.name.value;
    str' := str' + [EQUALS, QUOTE];
    assert str' == str + head;
    ghost var start := str';
    if field.nVals > 0 {
      assert vs[1..] == ValuesOf(field.nodes);
      str' := AddValue(field.val, str');
      Assoc(start, ValueText(vs[0]), CommaValues(vs[1..]));
      if field.nVals > 1 {
        str' := AddNodeValues(field, str');
      } else {
        assert CommaValues(vs[1..]) == [] && str' + [] == str';
      }
    } else {
      assert str' + [] == str';
    }
    Assoc(str, head, ValuesText(vs));
    Assoc(str, head + ValuesText(vs), [QUOTE]);
    str' := str' + [QUOTE];
  }

  /** ee_addTags_Syslog */
  method AddTags(tags: seq<bytes>, str: bytes) returns (str': bytes)
    ensures str' == str + TagsText(Some(tags))
  {
    str' := str + TAGS_HEAD;
    var needComma, k := false, 0;
    assert tags[0..] == tags;
    while k < |tags|
      invariant k <= |tags| && needComma == (k > 0)
      invariant k == |tags| > 0 ==> str' == str + TAGS_HEAD + JoinTags(tags)
      invariant k < |tags| ==>
        str' + (if needComma then [COMMA] else []) + JoinTags(tags[k..]) == str + TAGS_HEAD + JoinTags(tags)
      invariant tags == [] ==> str' == str + TAGS_HEAD
    {
      ghost var rest := tags[k..];
      assert rest[1..] == tags[k + 1..] && rest[0] == tags[k];
      if needComma {
        str' := str' + [COMMA];
      } else {
        assert str' + [] == str';
        needComma := true;
      }
      Assoc4(str', tags[k], [COMMA], JoinTags(tags[k + 1..]));
      Assoc(tags[k], [COMMA], JoinTags(tags[k + 1..]));
      str' := str' + tags[k];
      k := k + 1;
    }
    assert tags == [] ==> str' + [] == str';
    Assoc(str, TAGS_HEAD, JoinTags(tags));
    Assoc(str, TAGS_HEAD + JoinTags(tags), [QUOTE]);
    str' := str' + [QUOTE];
  }

  /** The loop over the fields of the bucket. */
  method AddFields(fields: FieldBucket, str: bytes) returns (str': bytes)
    requires fields.Valid()
    ensures str' == str + FieldsText(fields.contents)
  {
    hide FieldText;
    str' := str;
    var node := fields.root;
    ghost var i, recs := 0, fields.contents;
    assert recs[0..] == recs;
    while node != null
      invariant 0 <= i <= |fields.nodes| && node == NthBucketNode(fields.nodes, i)
      invariant str' + FieldsText(recs[i..]) == str + FieldsText(recs)
      decreases |fields.nodes| - i
    {
      assert Says(fields.nodes[i].field, recs[i], fields.owned);
      assert recs[i..][0] == recs[i] && recs[i..][1..] == recs[i + 1..];
      Assoc4(str', [SPACE], FieldText(recs[i]), FieldsText(recs[i + 1..]));
      Assoc([SPACE], FieldText(recs[i]), FieldsText(recs[i + 1..]));
      str' := str' + [SPACE];
      str' := AddField(node.field, str');
      node := node.next;
      i := i + 1;
    }
    assert recs[i..] == [] && str' + [] == str';
  }

  /** ee_fmtEventToRFC5424 */
  method FmtEventToRFC5424(event: Event, tags: Option<seq<bytes>>) returns (str: bytes)
    requires event.Valid()
    ensures str == EventText(event.Contents(), tags)
  {
    str := ELEMENT_HEAD;
    if tags.Some? {
      str := AddTags(tags.value, str);
    } else {
      assert str + [] == str;
    }
    if event.fields != null {
      str := AddFields(event.fields, str);
    } else {
      assert str + [] == str;
    }
    str := str + [RBRACKET];
  }

  // ---------- reading it back ----------

  datatype Read<T> = Got(value: T, rest: bytes) | Bad

  function UnescapeSyslog(c: byte): byte {
    if c == ZERO then NUL else if c == LOWER_N then LINEFEED else c
  }

  /** The values up to the closing quote: commas separate them, a backslash protects the byte after
      it; cur is what was read of the first one. */
  function ReadValues(t: bytes, cur: bytes): (r: Read<seq<bytes>>)
    ensures r.Got? ==> |r.rest| < |t|
    decreases |t|
  {
    if t == [] then Bad
    else if t[0] == QUOTE then Got([cur], t[1..])
    else if t[0] == COMMA then
      var r := ReadValues(t[1..], []);
      if r.Got? then Got([cur] + r.value, r.rest) else Bad
    else if t[0] != BACKSLASH then ReadValues(t[1..], cur + [t[0]])
    else if |t| < 2 then Bad
    else ReadValues(t[2..], cur + [UnescapeSyslog(t[1])])
  }

  /** The name up to the equals sign. */
  function ReadName(t: bytes): (r: Read<bytes>)
    ensures r.Got? ==> |r.rest| < |t|
  {
    if t == [] then Bad
    else if t[0] == EQUALS then Got([], t[1..])
    else
      var r := ReadName(t[1..]);
      if r.Got? then Got([t[0]] + r.value, r.rest) else Bad
  }

  function ReadField(t: bytes): (r: Read<Record>)
    ensures r.Got? ==> |r.rest| < |t|
  {
    var n := ReadName(t);
    if n.Bad? || n.rest == [] || n.rest[0] != QUOTE then Bad
    else
      var vs := ReadValues(n.rest[1..], []);
      if vs.Bad? then Bad else Got(Record(n.value, vs.value), vs.rest)
  }

  /** The fields up to the bracket that ends the element and the text. */
  function ReadFields(t: bytes): Option<seq<Record>>
    decreases |t|
  {
    if t == [RBRACKET] then Some([])
    else if t == [] || t[0] != SPACE then None
    else
      var f := ReadField(t[1..]);
      if f.Bad? then None
      else
        var fs := ReadFields(f.rest);
        if fs.None? then None else Some([f.value] + fs.value)
  }

  function ReadEvent(t: bytes): Option<seq<Record>> {
    if ELEMENT_HEAD <= t then ReadFields(t[|ELEMENT_HEAD|..]) else None
  }

  lemma {:induction false} ValueReads(v: bytes, rest: bytes, cur: bytes)
    ensures ReadValues(ValueText(v) + rest, cur) == ReadValues(rest, cur + v)
    decreases |v|
  {
    if v == [] {
      assert [] + rest == rest && cur + v == cur;
    } else {
      var e, more := SyslogByte(v[0]), ValueText(v[1..]) + rest;
      Assoc(e, ValueText(v[1..]), rest);
      ValueReads(v[1..], rest, cur + [v[0]]);
      HeadTail(v);
      Assoc(cur, [v[0]], v[1..]);
      assert (e + more)[|e|..] == more;
    }
  }

  lemma {:induction false} ValuesRead(vs: seq<bytes>, rest: bytes)
    requires vs != []
    ensures ReadValues(ValuesText(vs) + ([QUOTE] + rest), []) == Got(vs, rest)
    decreases |vs|
  {
    var tail := CommaValues(vs[1..]) + ([QUOTE] + rest);
    Assoc(ValueText(vs[0]), CommaValues(vs[1..]), [QUOTE] + rest);
    ValueReads(vs[0], tail, []);
    assert [] + vs[0] == vs[0];
    HeadTail(vs);
    if |vs| == 1 {
      assert tail == [QUOTE] + rest && (([QUOTE] + rest)[1..] == rest);
      Single(vs);
    } else {
      ValuesRead(vs[1..], rest);
      var next := ValuesText(vs[1..]) + ([QUOTE] + rest);
      assert CommaValues(vs[1..]) == [COMMA] + ValuesText(vs[1..]) by {
        Assoc([COMMA], ValueText(vs[1]), CommaValues(vs[1..][1..]));
      }
      Assoc([COMMA], ValuesText(vs[1..]), [QUOTE] + rest);
      ConsTail(COMMA, next);
    }
  }

  /** SD-NAME of section 6.3.2 of RFC 5424 without its length limit. */
  predicate ParamName(name: bytes) {
    forall i :: 0 <= i < |name| ==> name[i] != EQUALS && name[i] != SPACE && name[i] != RBRACKET && name[i] != QUOTE
  }

  lemma {:induction false} NameReads(name: bytes, rest: bytes)
    requires ParamName(name)
    ensures ReadName(name + ([EQUALS] + rest)) == Got(name, rest)
  {
    if name == [] {
      assert [] + ([EQUALS] + rest) == [EQUALS] + rest && ([EQUALS] + rest)[1..] == rest;
    } else {
      NameReads(name[1..], rest);
      assert (name + ([EQUALS] + rest))[1..] == name[1..] + ([EQUALS] + rest);
      HeadTail(name);
    }
  }

  lemma {:induction false} FieldReads(rec: Record, rest: bytes)
    requires ParamName(rec.name) && rec.values != []
    ensures ReadField(FieldText(rec) + rest) == Got(rec, rest)
  {
    var vt := ValuesText(rec.values);
    var body := vt + ([QUOTE] + rest);
    assert FieldText(rec) + rest == rec.name + ([EQUALS] + ([QUOTE] + body));
    NameReads(rec.name, [QUOTE] + body);
    ConsTail(QUOTE, body);
    ValuesRead(rec.values, rest);
  }

  predicate ParamNames(recs: seq<Record>) {
    forall i :: 0 <= i < |recs| ==> ParamName(recs[i].name)
  }

  lemma {:induction false} FieldsRead(recs: seq<Record>)
    requires ParamNames(recs) && forall i :: 0 <= i < |recs| ==> recs[i].values != []
    ensures ReadFields(FieldsText(recs) + [RBRACKET]) == Some(recs)
  {
    if recs == [] {
      assert [] + [RBRACKET] == [RBRACKET];
    } else {
      var rest := FieldsText(recs[1..]) + [RBRACKET];
      var t := FieldsText(recs) + [RBRACKET];
      Assoc4([SPACE], FieldText(recs[0]), FieldsText(recs[1..]), [RBRACKET]);
      Assoc([SPACE], FieldText(recs[0]), rest);
      assert t == [SPACE] + (FieldText(recs[0]) + rest);
      ConsTail(SPACE, FieldText(recs[0]) + rest);
      FieldReads(recs[0], rest);
      FieldsRead(recs[1..]);
      HeadTail(recs);
    }
  }

  lemma {:induction false} DropFront(a: bytes, t: bytes)
    ensures a <= a + t && (a + t)[|a|..] == t
  {}

  /** The text of an event without tags gives back its fields, when each has a value. */
  lemma {:induction false} EventReads(recs: seq<Record>)
    requires ParamNames(recs) && forall i :: 0 <= i < |recs| ==> recs[i].values != []
    ensures ReadEvent(EventText(recs, None)) == Some(recs)
  {
    hide ReadFields, FieldsText;
    var head, t := ELEMENT_HEAD, FieldsText(recs) + [RBRACKET];
    FieldsRead(recs);
    assert head + [] == head;
    Assoc(head, FieldsText(recs), [RBRACKET]);
    DropFront(head, t);
  }

  // ---------- what the text determines ----------

  /** A field without values is written like one with a single empty value. */
  function Normal(rec: Record): Record {
    Record(rec.name, if rec.values == [] then [[]] else rec.values)
  }

  function NormalAll(recs: seq<Record>): (ns: seq<Record>)
    ensures |ns| == |recs| && forall i :: 0 <= i < |ns| ==> ns[i] == Normal(recs[i])
  {
    seq(|recs|, i requires 0 <= i < |recs| => Normal(recs[i]))
  }

  lemma {:induction false} NormalText(recs: seq<Record>)
    ensures FieldsText(NormalAll(recs)) == FieldsText(recs)
  {
    if recs == [] {
    } else {
      NormalText(recs[1..]);
      assert NormalAll(recs)[1..] == NormalAll(recs[1..]);
      var none: seq<bytes> := [[]];
      assert none[1..] == [] && ValuesText(none) == [];
      assert FieldText(Normal(recs[0])) == FieldText(recs[0]);
    }
  }

  /** Two events without tags have the same text exactly when their fields are the same, but for
      the difference between no value and an empty one. */
  lemma {:induction false} TextDetermines(a: seq<Record>, b: seq<Record>)
    requires ParamNames(a) && ParamNames(b)
    ensures EventText(a, None) == EventText(b, None) <==> NormalAll(a) == NormalAll(b)
  {
    NormalText(a);
    NormalText(b);
    EventReads(NormalAll(a));
    EventReads(NormalAll(b));
  }

  /** No value and an empty value: the same text for two different events. */
  lemma {:induction false} ValuelessExample()
    ensures [Record([0x61], [])] != [Record([0x61], [[]])]
    ensures EventText([Record([0x61], [])], None) == EventText([Record([0x61], [[]])], None)
  {
    var a, b := [Record([0x61], [])], [Record([0x61], [[]])];
    assert a[0].values != b[0].values;
    TextDetermines(a, b);
  }

  // ---------- section 6.3.3 of RFC 5424 ----------

  /** Every quote, backslash and closing bracket has a backslash before it. */
  predicate Protected(t: bytes) {
    if t == [] then true
    else if t[0] == BACKSLASH then |t| > 1 && Protected(t[2..])
    else t[0] != QUOTE && t[0] != RBRACKET && Protected(t[1..])
  }

  lemma {:induction false} ProtectedConcat(a: bytes, b: bytes)
    requires Protected(a) && Protected(b)
    ensures Protected(a + b)
    decreases |a|
  {
    if a == [] {
      assert a + b == b;
    } else if a[0] == BACKSLASH {
      ProtectedConcat(a[2..], b);
      assert (a + b)[2..] == a[2..] + b;
    } else {
      ProtectedConcat(a[1..], b);
      assert (a + b)[1..] == a[1..] + b;
    }
  }

  lemma {:induction false} ValueProtected(v: bytes)
    ensures Protected(ValueText(v))
  {
    if v == [] {
    } else {
      ValueProtected(v[1..]);
      assert Protected(SyslogByte(v[0])) by {
        assert SyslogByte(v[0])[|SyslogByte(v[0])|..] == [];
      }
      ProtectedConcat(SyslogByte(v[0]), ValueText(v[1..]));
    }
  }

  lemma {:induction false} CommasProtected(vs: seq<bytes>)
    ensures Protected(CommaValues(vs))
  {
    if vs == [] {
    } else {
      ValueProtected(vs[0]);
      CommasProtected(vs[1..]);
      ProtectedConcat(ValueText(vs[0]), CommaValues(vs[1..]));
      Assoc([COMMA], ValueText(vs[0]), CommaValues(vs[1..]));
      assert Protected([COMMA]);
      ProtectedConcat([COMMA], ValueText(vs[0]) + CommaValues(vs[1..]));
    }
  }

  /** Between the quotes of a parameter value nothing that must be escaped is left unescaped. */
  lemma {:induction false} ValuesProtected(vs: seq<bytes>)
    ensures Protected(ValuesText(vs))
  {
    if vs != [] {
      ValueProtected(vs[0]);
      CommasProtected(vs[1..]);
      ProtectedConcat(ValueText(vs[0]), CommaValues(vs[1..]));
    }
  }

  /** The bytes that the encoder escapes. */
  predicate Special(c: byte) {
    c == NUL || c == LINEFEED || c == COMMA || c == BACKSLASH || c == RBRACKET || c == QUOTE
  }

  function Specials(v: bytes): nat {
    if v == [] then 0 else (if Special(v[0]) then 1 else 0) + Specials(v[1..])
  }

  /** Neither a terminator nor a line break. */
  predicate OneLine(t: bytes) {
    forall i :: 0 <= i < |t| ==> t[i] != NUL && t[i] != LINEFEED
  }

  /** Escaping costs one byte for each byte that needs it and none for the others, and no terminator and no
      line break is left. */
  lemma {:induction false} ValueEscapes(v: bytes)
    ensures |ValueText(v)| == |v| + Specials(v)
    ensures OneLine(ValueText(v))
    ensures ValueText(v) == v <==> Specials(v) == 0
  {
    if v == [] {
    } else {
      ValueEscapes(v[1..]);
      HeadTail(v);
    }
  }

  lemma {:induction false} CommasOneLine(vs: seq<bytes>)
    ensures OneLine(CommaValues(vs))
  {
    if vs == [] {
    } else {
      ValueEscapes(vs[0]);
      CommasOneLine(vs[1..]);
    }
  }

  lemma {:induction false} FieldOneLine(rec: Record)
    requires OneLine(rec.name)
    ensures OneLine(FieldText(rec))
  {
    hide ValueText, CommaValues;
    if rec.values != [] {
      ValueEscapes(rec.values[0]);
      CommasOneLine(rec.values[1..]);
    }
  }

  lemma {:induction false} FieldsOneLine(recs: seq<Record>)
    requires forall i :: 0 <= i < |recs| ==> OneLine(recs[i].name)
    ensures OneLine(FieldsText(recs))
  {
    hide FieldText;
    if recs == [] {
    } else {
      FieldOneLine(recs[0]);
      FieldsOneLine(recs[1..]);
    }
  }

  lemma {:induction false} TagsOneLine(tags: seq<bytes>)
    requires forall i :: 0 <= i < |tags| ==> OneLine(tags[i])
    ensures OneLine(JoinTags(tags))
  {
    if tags == [] {
    } else {
      TagsOneLine(tags[1..]);
    }
  }

  /** Whatever its values, an event is written on one line, if its names and tags are. */
  lemma {:induction false} EventOneLine(recs: seq<Record>, tags: Option<seq<bytes>>)
    requires forall i :: 0 <= i < |recs| ==> OneLine(recs[i].name)
    requires tags.Some? ==> forall i :: 0 <= i < |tags.value| ==> OneLine(tags.value[i])
    ensures OneLine(EventText(recs, tags))
  {
    hide FieldsText, JoinTags;
    FieldsOneLine(recs);
    if tags.Some? {
      TagsOneLine(tags.value);
    }
  }

  /** event.tags */
  const TAGS_NAME: bytes := [0x65, 0x76, 0x65, 0x6E, 0x74, 0x2E, 0x74, 0x61, 0x67, 0x73]

  predicate PlainTags(tags: seq<bytes>) {
    forall i :: 0 <= i < |tags| ==> Specials(tags[i]) == 0
  }

  lemma {:induction false} ValuesTextMore(vs: seq<bytes>)
    requires |vs| > 1
    ensures ValuesText(vs) == ValueText(vs[0]) + ([COMMA] + ValuesText(vs[1..]))
  {
    Assoc([COMMA], ValueText(vs[1]), CommaValues(vs[1..][1..]));
  }

  /** The tags are not escaped, so that they are written like the values of a field only if none of them
      needs it. */
  lemma {:induction false} JoinedAsValues(tags: seq<bytes>)
    ensures |JoinTags(tags)| <= |ValuesText(tags)|
    ensures JoinTags(tags) == ValuesText(tags) <==> PlainTags(tags)
  {
    if tags == [] {
    } else {
      hide ValueText, ValuesText;
      ValueEscapes(tags[0]);
      JoinedAsValues(tags[1..]);
      PlainParts(tags);
      if |tags| > 1 {
        ValuesTextMore(tags);
        Assoc(tags[0], [COMMA], JoinTags(tags[1..]));
        var a, b, x, y := tags[0], ValueText(tags[0]), [COMMA] + JoinTags(tags[1..]), [COMMA] + ValuesText(tags[1..]);
        SameFront([COMMA], [COMMA], JoinTags(tags[1..]), ValuesText(tags[1..]));
        if a + x == b + y {
          SameFront(a, b, x, y);
        }
      } else {
        OneTag(tags);
      }
    }
  }

  lemma {:induction false} OneTag(tags: seq<bytes>)
    requires |tags| == 1
    ensures ValuesText(tags) == ValueText(tags[0])
  {}

  lemma {:induction false} PlainParts(tags: seq<bytes>)
    requires tags != []
    ensures PlainTags(tags) <==> Specials(tags[0]) == 0 && PlainTags(tags[1..])
  {
    if Specials(tags[0]) == 0 && PlainTags(tags[1..]) {
      forall i | 0 <= i < |tags|
        ensures Specials(tags[i]) == 0
      {
        if i > 0 {
          assert tags[i] == tags[1..][i - 1];
        }
      }
    }
  }

  lemma {:induction false} TagsFieldText(tags: seq<bytes>, joined: bytes, recs: seq<Record>)
    requires joined == ValuesText(tags)
    ensures FieldsText([Record(TAGS_NAME, tags)] + recs) == TAGS_HEAD + joined + [QUOTE] + FieldsText(recs)
  {
    hide ValuesText;
    var rec := Record(TAGS_NAME, tags);
    ConsTail(rec, recs);
    assert [SPACE] + (TAGS_NAME + [EQUALS, QUOTE]) == TAGS_HEAD;
    Assoc([SPACE], TAGS_NAME + [EQUALS, QUOTE], joined);
    Assoc([SPACE], TAGS_NAME + [EQUALS, QUOTE] + joined, [QUOTE]);
  }

  /** Tags are written as a first field of that name exactly when none of their bytes needs an escape. */
  lemma {:induction false} TagsAsField(recs: seq<Record>, tags: seq<bytes>)
    ensures EventText(recs, Some(tags)) == EventText([Record(TAGS_NAME, tags)] + recs, None) <==> PlainTags(tags)
  {
    hide FieldsText, JoinTags, ValuesText, PlainTags;
    JoinedAsValues(tags);
    var j, v, fs := JoinTags(tags), ValuesText(tags), FieldsText(recs);
    TagsFieldText(tags, v, recs);
    TagsFront(j, v, fs);
    assert ELEMENT_HEAD + [] == ELEMENT_HEAD;
  }

  lemma {:induction false} TagsFront(j: bytes, v: bytes, fs: bytes)
    requires |j| <= |v|
    ensures var x := ELEMENT_HEAD + (TAGS_HEAD + j + [QUOTE]) + fs + [RBRACKET];
      var y := ELEMENT_HEAD + (TAGS_HEAD + v + [QUOTE] + fs) + [RBRACKET]; x == y <==> j == v
  {
    var x := ELEMENT_HEAD + (TAGS_HEAD + j + [QUOTE]) + fs + [RBRACKET];
    var y := ELEMENT_HEAD + (TAGS_HEAD + v + [QUOTE] + fs) + [RBRACKET];
    if j == v {
      Assoc(ELEMENT_HEAD, TAGS_HEAD + j + [QUOTE], fs);
    }
    if x == y {
      assert |j| == |v|;
      var n := |ELEMENT_HEAD| + |TAGS_HEAD|;
      assert x[n..n + |j|] == j && y[n..n + |v|] == v;
    }
  }

  /** So an event with such tags gives back the tags and its fields. */
  lemma {:induction false} TagsRead(recs: seq<Record>, tags: seq<bytes>)
    requires ParamNames(recs) && forall i :: 0 <= i < |recs| ==> recs[i].values != []
    requires tags != [] && PlainTags(tags)
    ensures ReadEvent(EventText(recs, Some(tags))) == Some([Record(TAGS_NAME, tags)] + recs)
  {
    hide EventText, ReadEvent, PlainTags;
    TagsAsField(recs, tags);
    EventReads([Record(TAGS_NAME, tags)] + recs);
  }
}
