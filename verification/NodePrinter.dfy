/** cJSON's printer: every routine measures first, allocates that much, and fills the buffer. A number
    goes into a buffer of fixed size without measuring; where it does not fit, the model has no result. */
module NodePrinter {
  import opened Bytes
  import opened CText
  import opened JsonString
  import opened JsonStringCode
  import opened Reals
  import opened Doubles
  import opened JsonNumber
  import opened NumberFormat
  import opened JsonTree
  import opened JsonRoundTrip
  import opened Seqs
  import opened Buffers
  import opened Nodes
  import opened NodeTrees

  // ---------- strings ----------

  lemma {:induction false} EscapeNext(t: bytes, i: nat)
    requires i < |t|
    ensures Escape(t[i..]) == EscapeByte(t[i]) + Escape(t[i + 1..])
    ensures Escape(t[..i + 1]) == Escape(t[..i]) + EscapeByte(t[i])
  {
    assert t[i..][1..] == t[i + 1..];
    assert t[..i + 1] == t[..i] + [t[i]];
    EscapeWithAppend(EscapeByte, t[..i], t[i]);
  }

  /** The first pass: one for each byte, and what its escape adds. */
  method MeasureEscape(str: array<byte>, ghost t: bytes) returns (len: nat)
    requires Holds(str, t) && NulFree(t)
    ensures len == |Escape(t)|
  {
    var ptr := 0;
    len := 0;
    while str[ptr] != NUL
      invariant ptr <= |t| && len + |Escape(t[ptr..])| == |Escape(t)|
      decreases |t| - ptr
    {
      HoldsAt(str, t, ptr);
      EscapeNext(t, ptr);
      var token := str[ptr];
      len := len + 1;
      if token in {QUOTE, BACKSLASH, BACKSPACE, FORMFEED, LINEFEED, RETURN, TAB} {
        len := len + 1;
      } else if token < 32 {
        len := len + 5;
      }
      ptr := ptr + 1;
    }
    HoldsAt(str, t, ptr);
  }

  /** sprintf(ptr2, "u%04x", token), without the terminator it leaves to be overwritten. */
  method PutHex(out: array<byte>, ptr2: nat, token: byte, ghost t: bytes) returns (next: nat)
    requires Filled(out, ptr2, t) && ptr2 + 5 < out.Length
    modifies out
    ensures next == ptr2 + 5
    ensures Filled(out, next, t + [LOWER_U, ZERO, ZERO, HexDigit(token / 16), HexDigit(token % 16)])
  {
    out[ptr2], out[ptr2 + 1], out[ptr2 + 2] := LOWER_U, ZERO, ZERO;
    out[ptr2 + 3], out[ptr2 + 4], out[ptr2 + 5] := HexDigit(token / 16), HexDigit(token % 16), NUL;
    next := ptr2 + 5;
    assert out[..ptr2] == t;
  }

  /** One turn of the second pass. */
  method PutEscaped(out: array<byte>, ptr2: nat, token: byte, ghost t: bytes) returns (next: nat)
    requires Filled(out, ptr2, t) && token != NUL && ptr2 + |EscapeByte(token)| < out.Length
    modifies out
    ensures Filled(out, next, t + EscapeByte(token))
  {
    if token > 31 && token != QUOTE && token != BACKSLASH {
      next := Put(out, ptr2, token, t);
      return;
    }
    next := Put(out, ptr2, BACKSLASH, t);
    ghost var u := t + [BACKSLASH];
    if token == BACKSLASH {
      next := Put(out, next, BACKSLASH, u);
    } else if token == QUOTE {
      next := Put(out, next, QUOTE, u);
    } else if token == BACKSPACE {
      next := Put(out, next, LOWER_B, u);
    } else if token == FORMFEED {
      next := Put(out, next, LOWER_F, u);
    } else if token == LINEFEED {
      next := Put(out, next, LOWER_N, u);
    } else if token == RETURN {
      next := Put(out, next, LOWER_R, u);
    } else if token == TAB {
      next := Put(out, next, LOWER_T, u);
    } else {
      next := PutHex(out, next, token, u);
    }
    assert t + EscapeByte(token) == u + EscapeByte(token)[1..];
  }

  /** print_string_ptr: the buffer has exactly the room that was measured, and is filled to its end.
      A missing string prints as nothing at all. */
  method PrintStringPtr(str: array?<byte>, ghost t: bytes) returns (out: array<byte>)
    requires str != null ==> Holds(str, t) && NulFree(t)
    ensures fresh(out)
    ensures str == null ==> Holds(out, [])
    ensures str != null ==> out.Length == |Quote(t)| + 1 && Holds(out, Quote(t))
  {
    if str == null {
      out := new byte[1];
      out[0] := NUL;
      return;
    }
    var len := MeasureEscape(str, t);
    out := new byte[len + 3];
    var ptr := 0;
    var ptr2: nat := Put(out, 0, QUOTE, []);
    assert [] + [QUOTE] == [QUOTE] + Escape(t[..0]);
    while str[ptr] != NUL
      invariant ptr <= |t| && Holds(str, t)
      invariant Filled(out, ptr2, [QUOTE] + Escape(t[..ptr]))
      invariant ptr2 + |Escape(t[ptr..])| == len + 1
      decreases |t| - ptr
    {
      HoldsAt(str, t, ptr);
      EscapeNext(t, ptr);
      ghost var before := [QUOTE] + Escape(t[..ptr]);
      ptr2 := PutEscaped(out, ptr2, str[ptr], before);
      assert before + EscapeByte(t[ptr]) == [QUOTE] + Escape(t[..ptr + 1]);
      ptr := ptr + 1;
    }
    HoldsAt(str, t, ptr);
    assert t[..ptr] == t;
    ptr2 := Put(out, ptr2, QUOTE, [QUOTE] + Escape(t));
    Terminate(out, ptr2, Quote(t));
  }

  // ---------- numbers and literals ----------

  /** A fresh copy of a text with its terminator. */
  method StrDupText(text: bytes, room: nat) returns (out: array<byte>)
    requires |text| < room
    ensures fresh(out) && out.Length == room && Holds(out, text)
    ensures forall o: object {:trigger allocated(o)} {:trigger old(allocated(o))} ::
      allocated(o) ==> old(allocated(o)) || o == out
  {
    out := new byte[room];
    var ptr: nat := 0;
    while ptr < |text|
      invariant ptr <= |text| && Filled(out, ptr, text[..ptr])
      invariant forall o: object {:trigger allocated(o)} {:trigger old(allocated(o))} ::
        allocated(o) ==> old(allocated(o)) || o == out
    {
      assert text[..ptr + 1] == text[..ptr] + [text[ptr]];
      ptr := Put(out, ptr, text[ptr], text[..ptr]);
    }
    assert text[..ptr] == text;
    Terminate(out, ptr, text);
  }

  /** The tests of cJSON_print_number, on the item's int and double. */
  method ChooseFormat(item: Node, ghost x: real) returns (f: Format)
    requires HasNumber(item, x)
    ensures f == FormatOf(x) && (f == Int ==> item.valueint == Trunc(x) && FitsInt(item.valueint))
    ensures forall o: object {:trigger allocated(o)} {:trigger old(allocated(o))} :: allocated(o) ==> old(allocated(o))
  {
    PrintsAsWhen(item.valueint, x);
    var d := item.valuedouble;
    if Abs(item.valueint as real - d) <= DBL_EPSILON && d <= INT_MAX as real && d >= INT_MIN as real {
      return Int;
    } else if Abs(d.Floor as real - d) <= DBL_EPSILON {
      return Integral;
    } else if Abs(d) < MICRO || Abs(d) > 1_000_000_000.0 {
      return Scientific;
    } else {
      return Fixed;
    }
  }

  /** sprintf into a fresh buffer, or nothing if it would write past the end. */
  method Sprintf(text: bytes, room: nat) returns (out: array?<byte>)
    ensures out != null <==> |text| < room
    ensures out != null ==> fresh(out) && out.Length == room && Holds(out, text)
    ensures forall o: object {:trigger allocated(o)} {:trigger old(allocated(o))} ::
      allocated(o) ==> old(allocated(o)) || o == out
  {
    out := null;
    if |text| < room {
      out := StrDupText(text, room);
    }
  }

  lemma {:induction false} NumberRoom(x: real)
    ensures FitsBuffer(x) <==> |FormatNumber(x)| < if FormatOf(x) == Int then 21 else 64
  {}

  /** cJSON_print_number: an int is printed from the item's int, anything else from its double, in the
      format its size asks for. */
  method PrintNumber(item: Node, ghost x: real) returns (str: array?<byte>)
    requires HasNumber(item, x)
    ensures str != null <==> FitsBuffer(x)
    ensures str != null ==> fresh(str) && Holds(str, FormatNumber(x))
    ensures str != null ==> str.Length == if FormatOf(x) == Int then 21 else 64
    ensures forall o: object {:trigger allocated(o)} {:trigger old(allocated(o))} ::
      allocated(o) ==> old(allocated(o)) || o == str
  {
    NumberRoom(x);
    FormatNumberIs(x);
    var d := item.valuedouble;
    assert d == x;
    IntegerTextIs(item.valueint);
    IntegerTextIs(d.Floor);
    hide Text, ScientificText, FixedText, IntegerText, DecimalText, FormatNumber;
    hide Trunc, FormatOf, FitsBuffer, HasNumber;
    var f := ChooseFormat(item, x);
    match f
    case Int => str := Sprintf(DecimalText(item.valueint), 21);
    case Integral => str := Sprintf(DecimalText(d.Floor), 64);
    case Scientific => str := Sprintf(Text(ScientificText(d)), 64);
    case Fixed => str := Sprintf(Text(FixedText(d)), 64);
  }

  // ---------- arrays ----------

  lemma {:induction false} TameNulFree(t: bytes)
    requires Tame(t)
    ensures NulFree(t)
    decreases |t|
  {
    if t == [] {
    } else {
      if t[0] != BACKSLASH {
        TameNulFree(t[1..]);
        assert forall i :: 1 <= i < |t| ==> t[i] == t[1..][i - 1];
      } else {
        TameNulFree(t[2..]);
        assert forall i :: 2 <= i < |t| ==> t[i] == t[2..][i - 2];
      }
    }
  }

  /** The buffers hold the texts of the items, in order. */
  ghost predicate Collected(entries: seq<array<byte>>, items: seq<Json>, depth: nat, fmt: bool)
    reads entries
  {
    |entries| <= |items| && forall j :: 0 <= j < |entries| ==> Holds(entries[j], PrintNested(items[j], depth, fmt))
  }

  /** What the first pass of print_array adds up for its entries. */
  function ItemsRoom(items: seq<Json>, depth: nat, fmt: bool): nat {
    if items == [] then 0
    else |PrintNested(items[0], depth, fmt)| + 2 + (if fmt then 1 else 0) + ItemsRoom(items[1..], depth, fmt)
  }

  lemma {:induction false} ItemsFitRoom(items: seq<Json>, depth: nat, fmt: bool)
    ensures |PrintItems(items, depth, fmt)| <= ItemsRoom(items, depth, fmt)
  {
    if |items| <= 1 {
    } else {
      ItemsFitRoom(items[1..], depth, fmt);
    }
  }

  function ItemsAfter(items: seq<Json>, i: nat, depth: nat, fmt: bool): bytes
    requires i <= |items|
  {
    PrintItems(items[i..], depth, fmt)
  }

  /** What stands between an item and the next, if there is one. */
  function Separator<T>(items: seq<T>, i: nat, fmt: bool): bytes {
    if i + 1 == |items| then [] else ItemSeparator(fmt)
  }

  lemma {:induction false} ItemsRest(items: seq<Json>, i: nat, depth: nat, fmt: bool)
    requires i < |items|
    ensures ItemsAfter(items, i, depth, fmt)
      == PrintNested(items[i], depth, fmt) + (Separator(items, i, fmt) + ItemsAfter(items, i + 1, depth, fmt))
    ensures i + 1 == |items| ==> ItemsAfter(items, i + 1, depth, fmt) == []
    ensures ItemsRoom(items[i..], depth, fmt)
      == |PrintNested(items[i], depth, fmt)| + 2 + (if fmt then 1 else 0) + ItemsRoom(items[i + 1..], depth, fmt)
  {
    assert items[i..][1..] == items[i + 1..];
  }

  lemma {:induction false} ItemsEnds(items: seq<Json>, depth: nat, fmt: bool)
    ensures ItemsAfter(items, 0, depth, fmt) == PrintItems(items, depth, fmt)
    ensures ItemsAfter(items, |items|, depth, fmt) == []
    ensures Print(Arr(items), depth, fmt) == [LBRACKET] + PrintItems(items, depth, fmt) + [RBRACKET]
  {
    assert items[0..] == items && items[|items|..] == [];
  }

  lemma {:induction false} NestedNulFree(v: Json, depth: nat, fmt: bool)
    ensures NulFree(PrintNested(v, depth, fmt))
  {
    PrintTame(v, depth + 1, fmt);
    TameNulFree(Print(v, depth + 1, fmt));
  }

  /** One entry and, unless it is the last, a comma after it. */
  method PutItem(out: array<byte>, ptr: nat, entry: array<byte>, last: bool, fmt: bool, ghost t: bytes, ghost u: bytes)
    returns (next: nat)
    requires Filled(out, ptr, t) && Holds(entry, u) && NulFree(u) && out != entry
    requires ptr + |u| + (if last then 0 else |ItemSeparator(fmt)|) < out.Length
    modifies out
    ensures Filled(out, next, t + u + (if last then [] else ItemSeparator(fmt)))
  {
    next := PutString(out, ptr, entry, t, u);
    if !last {
      next := Put(out, next, COMMA, t + u);
      if fmt {
        next := Put(out, next, SPACE, t + u + [COMMA]);
        assert t + u + [COMMA] + [SPACE] == t + u + [COMMA, SPACE];
      }
      Terminate(out, next, t + u + ItemSeparator(fmt));
    } else {
      assert t + u + [] == t + u;
    }
  }

  /** The composing pass of print_array: nothing is written beyond the room that was added up. */
  method ComposeArray(entries: seq<array<byte>>, len: nat, fmt: bool, ghost depth: nat, ghost items: seq<Json>)
    returns (out: array<byte>)
    requires Collected(entries, items, depth, fmt) && |entries| == |items|
    requires len == 5 + ItemsRoom(items, depth, fmt)
    ensures fresh(out) && out.Length == len && Holds(out, Print(Arr(items), depth, fmt))
  {
    hide Print, PrintItems, PrintNested, ItemsRoom, ItemsAfter, ItemSeparator;
    out := new byte[len];
    var ptr: nat := Put(out, 0, LBRACKET, []);
    ghost var t := [LBRACKET];
    Terminate(out, ptr, t);
    ItemsFitRoom(items, depth, fmt);
    ItemsEnds(items, depth, fmt);
    var i := 0;
    while i < |entries|
      invariant i <= |items|
      invariant Collected(entries, items, depth, fmt)
      invariant Filled(out, ptr, t)
      invariant t + ItemsAfter(items, i, depth, fmt) == [LBRACKET] + PrintItems(items, depth, fmt)
    {
      ghost var u := PrintNested(items[i], depth, fmt);
      ItemsRest(items, i, depth, fmt);
      NestedNulFree(items[i], depth, fmt);
      var last := i == |entries| - 1;
      ptr := PutItem(out, ptr, entries[i], last, fmt, t, u);
      Assoc4(t, u, Separator(items, i, fmt), ItemsAfter(items, i + 1, depth, fmt));
      t := t + u + Separator(items, i, fmt);
      i := i + 1;
    }
    assert t == [LBRACKET] + PrintItems(items, depth, fmt);
    ptr := Put(out, ptr, RBRACKET, t);
    Terminate(out, ptr, t + [RBRACKET]);
  }

  // ---------- objects ----------

  ghost predicate CollectedNames(names: seq<array<byte>>, members: seq<Member>)
    reads names
  {
    |names| <= |members| && forall j :: 0 <= j < |names| ==> Holds(names[j], KeyText(members[j].key))
  }

  ghost predicate CollectedValues(entries: seq<array<byte>>, members: seq<Member>, depth: nat, fmt: bool)
    reads entries
  {
    && |entries| <= |members|
    && forall j :: 0 <= j < |entries| ==> Holds(entries[j], PrintNested(members[j].value, depth, fmt))
  }

  /** What the first pass of print_object adds up for its members. */
  function MembersRoom(members: seq<Member>, depth: nat, fmt: bool): nat {
    if members == [] then 0
    else MemberRoom(members[0], depth, fmt) + MembersRoom(members[1..], depth, fmt)
  }

  function MemberRoom(m: Member, depth: nat, fmt: bool): nat {
    |PrintNested(m.value, depth, fmt)| + |KeyText(m.key)| + 2 + (if fmt then 2 + (depth + 1) else 0)
  }

  lemma {:induction false} MembersFitRoom(members: seq<Member>, depth: nat, fmt: bool)
    ensures |PrintMembers(members, depth, fmt)| <= MembersRoom(members, depth, fmt)
  {
    if |members| <= 1 {
    } else {
      MembersFitRoom(members[1..], depth, fmt);
    }
  }

  function MembersAfter(members: seq<Member>, i: nat, depth: nat, fmt: bool): bytes
    requires i <= |members|
  {
    PrintMembers(members[i..], depth, fmt)
  }

  function MemberEnds(last: bool, fmt: bool): bytes {
    if last then Break(fmt) else [COMMA] + Break(fmt)
  }

  lemma {:induction false} MembersRest(members: seq<Member>, i: nat, depth: nat, fmt: bool)
    requires i < |members|
    ensures MembersAfter(members, i, depth, fmt)
      == PrintMember(members[i], depth, fmt)
       + (MemberEnds(i + 1 == |members|, fmt) + MembersAfter(members, i + 1, depth, fmt))
    ensures MembersRoom(members[i..], depth, fmt)
      == MemberRoom(members[i], depth, fmt) + MembersRoom(members[i + 1..], depth, fmt)
  {
    assert members[i..][1..] == members[i + 1..];
    Assoc(PrintMember(members[i], depth, fmt), MemberEnds(i + 1 == |members|, fmt),
          MembersAfter(members, i + 1, depth, fmt));
  }

  lemma {:induction false} MembersEnds(members: seq<Member>, depth: nat, fmt: bool)
    ensures MembersAfter(members, 0, depth, fmt) == PrintMembers(members, depth, fmt)
    ensures MembersAfter(members, |members|, depth, fmt) == []
    ensures Print(Obj(members), depth, fmt)
      == [LBRACE] + Break(fmt) + PrintMembers(members, depth, fmt) + Indent(depth, fmt) + [RBRACE]
  {
    assert members[0..] == members && members[|members|..] == [];
  }

  lemma {:induction false} QuoteNulFree(str: bytes)
    ensures NulFree(Quote(str))
  {
    QuoteTame(str);
    TameNulFree(Quote(str));
  }

  lemma {:induction false} KeyNulFreeText(key: Key)
    ensures NulFree(KeyText(key))
  {
    if key.Named? {
      QuoteNulFree(key.name);
    }
  }

  method PutTabs(out: array<byte>, ptr: nat, n: nat, ghost t: bytes) returns (next: nat)
    requires Filled(out, ptr, t) && ptr + n < out.Length
    modifies out
    ensures Filled(out, next, t + Tabs(n))
  {
    next := ptr;
    var j := 0;
    assert t + Tabs(0) == t;
    while j < n
      invariant j <= n && next == ptr + j && Filled(out, next, t + Tabs(j))
    {
      next := Put(out, next, TAB, t + Tabs(j));
      TabsAppend(j);
      Assoc(t, Tabs(j), [TAB]);
      j := j + 1;
    }
  }

  lemma {:induction false} TabsAppend(n: nat)
    ensures Tabs(n + 1) == Tabs(n) + [TAB]
  {
    if n == 0 {
    } else {
      TabsAppend(n - 1);
    }
  }

  /** The tabs, name, colon and value of one member. */
  method PutMember(out: array<byte>, ptr: nat, name: array<byte>, entry: array<byte>, depth: nat, fmt: bool,
                   ghost m: Member, ghost t: bytes)
    returns (next: nat)
    requires Filled(out, ptr, t) && out != name && out != entry
    requires Holds(name, KeyText(m.key)) && Holds(entry, PrintNested(m.value, depth, fmt))
    requires ptr + |PrintMember(m, depth, fmt)| < out.Length
    modifies out
    ensures Filled(out, next, t + PrintMember(m, depth, fmt))
  {
    hide KeyText, PrintNested, Tabs;
    ghost var u := t;
    ghost var q, v := KeyText(m.key), PrintNested(m.value, depth, fmt);
    KeyNulFreeText(m.key);
    NestedNulFree(m.value, depth, fmt);
    next := ptr;
    if fmt {
      next := PutTabs(out, next, depth + 1, u);
    }
    u := u + Indent(depth + 1, fmt);
    assert Indent(depth + 1, false) == [] && t + [] == t;
    next := PutString(out, next, name, u, q);
    next := Put(out, next, COLON, u + q);
    if fmt {
      next := Put(out, next, TAB, u + q + [COLON]);
      assert u + q + [COLON] + [TAB] == u + q + NameSeparator(fmt);
    }
    next := PutString(out, next, entry, u + q + NameSeparator(fmt), v);
    Regroup(t, Indent(depth + 1, fmt), q, NameSeparator(fmt), v);
  }

  lemma {:induction false} Regroup(t: bytes, a: bytes, b: bytes, c: bytes, d: bytes)
    ensures t + a + b + c + d == t + (a + b + c + d)
  {}

  /** What follows a member: a comma unless it is the last, and a line break. */
  method PutMemberEnd(out: array<byte>, ptr: nat, last: bool, fmt: bool, ghost t: bytes) returns (next: nat)
    requires Filled(out, ptr, t) && ptr + |MemberEnds(last, fmt)| < out.Length
    modifies out
    ensures Filled(out, next, t + MemberEnds(last, fmt))
  {
    next := ptr;
    ghost var u := t;
    if !last {
      next := Put(out, next, COMMA, u);
      u := u + [COMMA];
    }
    if fmt {
      next := Put(out, next, LINEFEED, u);
      u := u + [LINEFEED];
    }
    assert u == t + MemberEnds(last, fmt);
    Terminate(out, next, u);
  }

  lemma {:induction false} CollectedAt(names: seq<array<byte>>, entries: seq<array<byte>>, members: seq<Member>, i: nat,
                                       depth: nat, fmt: bool)
    requires CollectedNames(names, members) && CollectedValues(entries, members, depth, fmt)
    requires i < |names| && i < |entries|
    ensures i < |members| && Holds(names[i], KeyText(members[i].key))
    ensures Holds(entries[i], PrintNested(members[i].value, depth, fmt))
  {}

  /** The composing pass of print_object. */
  method ComposeObject(names: seq<array<byte>>, entries: seq<array<byte>>, len: nat, depth: nat, fmt: bool,
                       ghost members: seq<Member>)
    returns (out: array<byte>)
    requires CollectedNames(names, members) && CollectedValues(entries, members, depth, fmt)
    requires |names| == |entries| == |members|
    requires len == 7 + (if fmt then depth + 1 else 0) + MembersRoom(members, depth, fmt)
    ensures fresh(out) && out.Length == len && Holds(out, Print(Obj(members), depth, fmt))
  {
    hide Print, PrintMembers, PrintMember, MembersRoom, KeyText, PrintNested, Tabs, CollectedNames, CollectedValues;
    hide MembersAfter, MemberEnds;
    out := new byte[len];
    var ptr: nat := Put(out, 0, LBRACE, []);
    if fmt {
      ptr := Put(out, ptr, LINEFEED, [LBRACE]);
    }
    ghost var t := [LBRACE] + Break(fmt);
    Terminate(out, ptr, t);
    MembersFitRoom(members, depth, fmt);
    MembersEnds(members, depth, fmt);
    ghost var whole := t + PrintMembers(members, depth, fmt);
    var i := 0;
    while i < |entries|
      invariant i <= |members|
      invariant CollectedNames(names, members) && CollectedValues(entries, members, depth, fmt)
      invariant Filled(out, ptr, t)
      invariant t + MembersAfter(members, i, depth, fmt) == whole
    {
      ghost var u := PrintMember(members[i], depth, fmt);
      MembersRest(members, i, depth, fmt);
      CollectedAt(names, entries, members, i, depth, fmt);
      var last := i == |entries| - 1;
      ptr := PutMember(out, ptr, names[i], entries[i], depth, fmt, members[i], t);
      ptr := PutMemberEnd(out, ptr, last, fmt, t + u);
      Assoc4(t, u, MemberEnds(last, fmt), MembersAfter(members, i + 1, depth, fmt));
      t := t + u + MemberEnds(last, fmt);
      i := i + 1;
    }
    assert t == whole;
    if fmt {
      ptr := PutTabs(out, ptr, depth, t);
    }
    assert Indent(depth, false) == [] && t + [] == t;
    ptr := Put(out, ptr, RBRACE, t + Indent(depth, fmt));
    Terminate(out, ptr, t + Indent(depth, fmt) + [RBRACE]);
  }

  // ---------- values ----------

  /** What the reader of a linked list needs of one child. */
  lemma {:induction false} ReadsAt(kids: seq<Shape>, es: seq<Entry>, byName: bool, i: nat)
    requires ReadsAll(kids, es, byName) && i < |kids|
    ensures i < |es| && (byName ==> HasKey(kids[i], es[i].key)) && Reads(kids[i], es[i].value)
    ensures kids[i].node.name == kids[i].name
    ensures NodesOf(kids)[i] == kids[i].node && kids[i].node.next == Nth(NodesOf(kids), i + 1)
  {
    assert ReadsEntry(kids[i], es[i], byName);
    assert Reads(kids[i], es[i].value);
  }

  /** The fields of a struct that reads as a value, by its kind. */
  lemma {:induction false} ReadsParts(sh: Shape, v: Json)
    requires Reads(sh, v)
    ensures sh.node.kind == KindOf(v)
    ensures v.Num? ==> HasNumber(sh.node, v.value)
    ensures v.Str? ==> sh.text != null && Holds(sh.text, v.text) && sh.node.valuestring == sh.text
    ensures sh.node.child == Nth(NodesOf(sh.kids), 0)
    ensures v.Arr? ==> ReadsAll(sh.kids, ItemEntries(v.items), false)
    ensures v.Obj? ==> ReadsAll(sh.kids, MemberEntries(v.members), true)
  {}

  lemma {:induction false} CollectedMore(entries: seq<array<byte>>, ret: array<byte>, items: seq<Json>,
                                         depth: nat, fmt: bool)
    requires Collected(entries, items, depth, fmt) && |entries| < |items|
    requires Holds(ret, PrintNested(items[|entries|], depth, fmt))
    ensures Collected(entries + [ret], items, depth, fmt)
  {}

  /** The first i numbers fit. */
  predicate ItemsFit(items: seq<Json>, i: nat)
    requires i <= |items|
  {
    forall j :: 0 <= j < i ==> NumbersFit(items[j])
  }

  lemma {:induction false} FitsItem(items: seq<Json>, i: nat)
    requires i < |items|
    ensures ItemsFit(items, 0)
    ensures ItemsFit(items, i + 1) <==> ItemsFit(items, i) && NumbersFit(items[i])
    ensures NumbersFit(Arr(items)) ==> NumbersFit(items[i])
    ensures TextsNulFree(Arr(items)) ==> TextsNulFree(items[i])
  {}

  lemma {:induction false} FitsItems(items: seq<Json>)
    ensures ItemsFit(items, 0) && (NumbersFit(Arr(items)) <==> ItemsFit(items, |items|))
  {}

  /** The first pass of print_array: prints every child and adds up the room, up to the first failure. */
  method CollectItems(first: Node?, depth: nat, fmt: bool, ghost kids: seq<Shape>, ghost items: seq<Json>)
    returns (entries: seq<array<byte>>, len: nat, fail: bool)
    requires first == Nth(NodesOf(kids), 0) && ReadsAll(kids, ItemEntries(items), false)
    requires TextsNulFree(Arr(items))
    ensures fail <==> !NumbersFit(Arr(items))
    ensures !fail ==> Collected(entries, items, depth, fmt) && |entries| == |items|
    ensures !fail ==> len == 5 + ItemsRoom(items, depth, fmt)
    decreases kids
  {
    hide Print, PrintNested, TextsNulFree, NumbersFit, ItemsFit, ReadsAll, Collected, ItemsRoom;
    var child := first;
    ghost var i := 0;
    entries, len, fail := [], 5, false;
    FitsItems(items);
    assert allocated(Below(kids));
    CollectedNone(items, depth, fmt);
    ItemsLength(kids, items);
    assert items[0..] == items;
    while child != null
      invariant i <= |kids| && child == Nth(NodesOf(kids), i) && |entries| == i
      invariant ReadsAll(kids, ItemEntries(items), false) && ItemsFit(items, i)
      invariant Collected(entries, items, depth, fmt)
      invariant len + ItemsRoom(items[i..], depth, fmt) == 5 + ItemsRoom(items, depth, fmt)
      decreases |kids| - i
    {
      ReadsAt(kids, ItemEntries(items), false, i);
      FitsItem(items, i);
      ItemsRest(items, i, depth, fmt);
      NestedNulFree(items[i], depth, fmt);
      NestedIs(items[i], depth, fmt);
      var next := child.next;
      assert allocated(entries);
      var ret := PrintValue(child, depth + 1, fmt, kids[i], items[i]);
      if ret == null {
        fail := true;
        return;
      }
      var n := StrLen(ret, PrintNested(items[i], depth, fmt));
      CollectedMore(entries, ret, items, depth, fmt);
      entries := entries + [ret];
      len := len + n + 2 + (if fmt then 1 else 0);
      child := next;
      i := i + 1;
    }
    assert items[i..] == [];
    RoomNone(depth, fmt);
  }

  lemma {:induction false} CollectedNone(items: seq<Json>, depth: nat, fmt: bool)
    ensures Collected([], items, depth, fmt)
  {}

  lemma {:induction false} RoomNone(depth: nat, fmt: bool)
    ensures ItemsRoom([], depth, fmt) == 0
    ensures MembersRoom([], depth, fmt) == 0
  {}

  lemma {:induction false} ItemsLength(kids: seq<Shape>, items: seq<Json>)
    requires ReadsAll(kids, ItemEntries(items), false)
    ensures |kids| == |items|
  {}

  predicate MembersFit(members: seq<Member>, i: nat)
    requires i <= |members|
  {
    forall j :: 0 <= j < i ==> NumbersFit(members[j].value)
  }

  lemma {:induction false} FitsMember(members: seq<Member>, i: nat)
    requires i < |members|
    ensures MembersFit(members, i + 1) <==> MembersFit(members, i) && NumbersFit(members[i].value)
    ensures NumbersFit(Obj(members)) ==> NumbersFit(members[i].value)
    ensures TextsNulFree(Obj(members)) ==> KeyNulFree(members[i].key) && TextsNulFree(members[i].value)
  {}

  lemma {:induction false} FitsMembers(members: seq<Member>)
    ensures MembersFit(members, 0) && (NumbersFit(Obj(members)) <==> MembersFit(members, |members|))
  {}

  lemma {:induction false} MembersLength(kids: seq<Shape>, members: seq<Member>)
    requires ReadsAll(kids, MemberEntries(members), true)
    ensures |kids| == |members|
  {}

  lemma {:induction false} MembersCollectedMore(names: seq<array<byte>>, str: array<byte>,
                                                entries: seq<array<byte>>, ret: array<byte>,
                                                members: seq<Member>, depth: nat, fmt: bool)
    requires CollectedNames(names, members) && |names| == |entries| < |members|
    requires CollectedValues(entries, members, depth, fmt)
    requires Holds(str, KeyText(members[|names|].key)) && Holds(ret, PrintNested(members[|names|].value, depth, fmt))
    ensures CollectedNames(names + [str], members) && CollectedValues(entries + [ret], members, depth, fmt)
  {
    hide KeyText, PrintNested;
    forall j | 0 <= j < |names + [str]|
      ensures Holds((names + [str])[j], KeyText(members[j].key))
    {}
    forall j | 0 <= j < |entries + [ret]|
      ensures Holds((entries + [ret])[j], PrintNested(members[j].value, depth, fmt))
    {}
  }

  lemma {:induction false} MembersCollectedNone(members: seq<Member>, depth: nat, fmt: bool)
    ensures CollectedNames([], members) && CollectedValues([], members, depth, fmt)
  {}

  /** The name and the value of one child, printed. */
  method PrintChild(child: Node, depth: nat, fmt: bool, ghost sh: Shape, ghost m: Member)
    returns (str: array<byte>, ret: array?<byte>, n: nat)
    requires child == sh.node && child.name == sh.name && HasKey(sh, m.key) && Reads(sh, m.value)
    requires KeyNulFree(m.key) && TextsNulFree(m.value)
    ensures Holds(str, KeyText(m.key)) && fresh(str) && (ret != null <==> NumbersFit(m.value))
    ensures ret != null ==> Holds(ret, PrintNested(m.value, depth, fmt))
    ensures ret != null ==> n == |PrintNested(m.value, depth, fmt)| + |KeyText(m.key)|
    decreases sh, 1
  {
    hide Print, PrintNested, TextsNulFree, NumbersFit, Quote, Reads;
    NestedIs(m.value, depth, fmt);
    NestedNulFree(m.value, depth, fmt);
    KeyNulFreeText(m.key);
    assert allocated(Footprint(sh));
    str := PrintStringPtr(child.name, if m.key.Named? then m.key.name else []);
    ret := PrintValue(child, depth + 1, fmt, sh, m.value);
    if ret == null {
      n := 0;
      return;
    }
    var a := StrLen(ret, PrintNested(m.value, depth, fmt));
    var b := StrLen(str, KeyText(m.key));
    n := a + b;
  }

  lemma {:induction false} MembersRoomRest(members: seq<Member>, i: nat, depth: nat, fmt: bool)
    requires i < |members|
    ensures MembersRoom(members[i..], depth, fmt)
      == |PrintNested(members[i].value, depth, fmt)| + |KeyText(members[i].key)|
       + 2 + (if fmt then 2 + (depth + 1) else 0) + MembersRoom(members[i + 1..], depth, fmt)
  {
    MembersRest(members, i, depth, fmt);
  }

  /** The first pass of print_object. */
  method CollectMembers(first: Node?, depth: nat, fmt: bool, ghost kids: seq<Shape>, ghost members: seq<Member>)
    returns (names: seq<array<byte>>, entries: seq<array<byte>>, len: nat, fail: bool)
    requires first == Nth(NodesOf(kids), 0) && ReadsAll(kids, MemberEntries(members), true)
    requires TextsNulFree(Obj(members))
    ensures fail <==> !NumbersFit(Obj(members))
    ensures !fail ==> CollectedNames(names, members) && CollectedValues(entries, members, depth, fmt)
    ensures !fail ==> |names| == |entries| == |members|
    ensures !fail ==> len == 7 + (if fmt then depth + 1 else 0) + MembersRoom(members, depth, fmt)
    decreases kids
  {
    hide Print, PrintNested, TextsNulFree, NumbersFit, MembersFit;
    hide ReadsAll, CollectedNames, CollectedValues, MembersRoom, MemberRoom, KeyText;
    var child := first;
    ghost var i := 0;
    names, entries, len, fail := [], [], if fmt then 7 + (depth + 1) else 7, false;
    FitsMembers(members);
    ghost var base := len;
    assert allocated(Below(kids));
    MembersCollectedNone(members, depth, fmt);
    MembersLength(kids, members);
    assert members[0..] == members;
    while child != null
      invariant i <= |kids| && child == Nth(NodesOf(kids), i) && |names| == |entries| == i
      invariant ReadsAll(kids, MemberEntries(members), true) && MembersFit(members, i)
      invariant CollectedNames(names, members) && CollectedValues(entries, members, depth, fmt)
      invariant len + MembersRoom(members[i..], depth, fmt) == base + MembersRoom(members, depth, fmt)
      decreases |kids| - i
    {
      ReadsAt(kids, MemberEntries(members), true, i);
      FitsMember(members, i);
      MembersRoomRest(members, i, depth, fmt);
      var next := child.next;
      assert allocated(names) && allocated(entries);
      var str, ret, n := PrintChild(child, depth, fmt, kids[i], members[i]);
      if ret == null {
        fail := true;
        return;
      }
      MembersCollectedMore(names, str, entries, ret, members, depth, fmt);
      names, entries := names + [str], entries + [ret];
      len := len + n + 2 + (if fmt then 2 + (depth + 1) else 0);
      child := next;
      i := i + 1;
    }
    assert members[i..] == [];
    RoomNone(depth, fmt);
  }

  /** print_value: the text of the value, unless one of its numbers does not fit its buffer. */
  method PrintValue(item: Node, depth: nat, fmt: bool, ghost sh: Shape, ghost v: Json) returns (out: array?<byte>)
    requires item == sh.node && Reads(sh, v) && TextsNulFree(v)
    ensures out != null <==> NumbersFit(v)
    ensures out != null ==> fresh(out) && Holds(out, Print(v, depth, fmt))
    decreases sh, 0
  {
    hide Reads, ReadsAll, Collected, CollectedNames, CollectedValues;
    ReadsParts(sh, v);
    match item.kind
    case NullKind => out := StrDupText(NULL_TEXT, 5);
    case FalseKind => out := StrDupText(FALSE_TEXT, 6);
    case TrueKind => out := StrDupText(TRUE_TEXT, 5);
    case NumberKind => out := PrintNumber(item, v.value);
    case StringKind => out := PrintStringPtr(item.valuestring, v.text);
    case ArrayKind =>
      var entries, len, fail := CollectItems(item.child, depth, fmt, sh.kids, v.items);
      if fail {
        return null;
      }
      out := ComposeArray(entries, len, fmt, depth, v.items);
    case ObjectKind =>
      var names, entries, len, fail := CollectMembers(item.child, depth, fmt, sh.kids, v.members);
      if fail {
        return null;
      }
      out := ComposeObject(names, entries, len, depth, fmt, v.members);
  }

  /** cJSON_Print and cJSON_PrintUnformatted. */
  method PrintText(item: Node, fmt: bool, ghost sh: Shape, ghost v: Json) returns (out: array?<byte>)
    requires item == sh.node && Reads(sh, v) && TextsNulFree(v)
    ensures out != null <==> NumbersFit(v)
    ensures out != null ==> fresh(out) && Holds(out, Print(v, 0, fmt))
  {
    out := PrintValue(item, 0, fmt, sh, v);
  }
}
