/** JSON values, as trees, and the text cJSON prints for them. */
module JsonTree {
  import opened Bytes
  import opened Doubles
  import opened JsonString
  import opened NumberFormat
  import opened NumberReread

  datatype Json =
    | Null
    | Bool(b: bool)
    | Num(value: real)
    | Str(text: bytes)
    | Arr(items: seq<Json>)
    | Obj(members: seq<Member>)

  /** A struct may have a name or not, whatever it is a child of. */
  datatype Key = Unnamed | Named(name: bytes)

  datatype Member = Member(key: Key, value: Json)

  /** Every string and name is a C string. */
  predicate TextsNulFree(v: Json) {
    match v
    case Str(t) => NulFree(t)
    case Arr(items) => forall i :: 0 <= i < |items| ==> TextsNulFree(items[i])
    case Obj(members) => forall i :: 0 <= i < |members| ==> KeyNulFree(members[i].key) && TextsNulFree(members[i].value)
    case _ => true
  }

  predicate KeyNulFree(key: Key) {
    key.Named? ==> NulFree(key.name)
  }

  /** And every number is a double and every member has a name: what the parser builds, and what it can
      read back. */
  ghost predicate Proper(v: Json) {
    match v
    case Num(x) => IsDouble(x)
    case Str(t) => NulFree(t)
    case Arr(items) => forall i :: 0 <= i < |items| ==> Proper(items[i])
    case Obj(members) =>
      forall i :: 0 <= i < |members| ==>
        members[i].key.Named? && KeyNulFree(members[i].key) && Proper(members[i].value)
    case _ => true
  }

  lemma {:induction false} ProperTexts(v: Json)
    requires Proper(v)
    ensures TextsNulFree(v)
  {
    match v
    case Arr(items) =>
      forall i | 0 <= i < |items| ensures TextsNulFree(items[i]) {
        ProperTexts(items[i]);
      }
    case Obj(members) =>
      forall i | 0 <= i < |members| ensures TextsNulFree(members[i].value) {
        ProperTexts(members[i].value);
      }
    case _ =>
  }

  /** Every number fits the buffer the printer allocates for it. */
  predicate NumbersFit(v: Json) {
    match v
    case Num(x) => FitsBuffer(x)
    case Arr(items) => forall i :: 0 <= i < |items| ==> NumbersFit(items[i])
    case Obj(members) => forall i :: 0 <= i < |members| ==> NumbersFit(members[i].value)
    case _ => true
  }

  /** The value with the numbers that the parser makes of the printed ones. */
  function AsReread(v: Json): Json
    decreases v, 0
  {
    match v
    case Num(x) => Num(Reread(x))
    case Arr(items) => Arr(ItemsAsReread(items))
    case Obj(members) => Obj(MembersAsReread(members))
    case _ => v
  }

  function ItemsAsReread(items: seq<Json>): (rs: seq<Json>)
    ensures |rs| == |items|
    decreases items, 1
  {
    if items == [] then [] else [AsReread(items[0])] + ItemsAsReread(items[1..])
  }

  function MemberAsReread(m: Member): Member
    decreases m, 1
  {
    Member(m.key, AsReread(m.value))
  }

  function MembersAsReread(members: seq<Member>): (rs: seq<Member>)
    ensures |rs| == |members|
    decreases members, 2
  {
    if members == [] then [] else [MemberAsReread(members[0])] + MembersAsReread(members[1..])
  }

  const NULL_TEXT: bytes := [0x6E, 0x75, 0x6C, 0x6C]
  const TRUE_TEXT: bytes := [0x74, 0x72, 0x75, 0x65]
  const FALSE_TEXT: bytes := [0x66, 0x61, 0x6C, 0x73, 0x65]

  function Tabs(n: nat): (t: bytes)
    ensures |t| == n
  {
    if n == 0 then [] else [TAB] + Tabs(n - 1)
  }

  /** print_value; fmt asks for the formatted form, depth counts the enclosing containers. */
  function Print(v: Json, depth: nat, fmt: bool): (t: bytes)
    ensures t != []
    decreases v, 0
  {
    match v
    case Null => NULL_TEXT
    case Bool(b) => if b then TRUE_TEXT else FALSE_TEXT
    case Num(x) => FormatNumber(x)
    case Str(t) => Quote(t)
    case Arr(items) => [LBRACKET] + PrintItems(items, depth, fmt) + [RBRACKET]
    case Obj(members) =>
      [LBRACE] + Break(fmt) + PrintMembers(members, depth, fmt) + Indent(depth, fmt) + [RBRACE]
  }

  function Break(fmt: bool): bytes {
    if fmt then [LINEFEED] else []
  }

  function Indent(depth: nat, fmt: bool): bytes {
    if fmt then Tabs(depth) else []
  }

  function ItemSeparator(fmt: bool): bytes {
    if fmt then [COMMA, SPACE] else [COMMA]
  }

  function NameSeparator(fmt: bool): bytes {
    if fmt then [COLON, TAB] else [COLON]
  }

  /** print_string_ptr of a name: without a name nothing is printed, not even quotes. */
  function KeyText(key: Key): bytes {
    if key.Named? then Quote(key.name) else []
  }

  /** A value inside a container at the given depth. */
  function PrintNested(v: Json, depth: nat, fmt: bool): (t: bytes)
    ensures t != []
    decreases v, 1
  {
    Print(v, depth + 1, fmt)
  }

  function PrintItems(items: seq<Json>, depth: nat, fmt: bool): bytes
    decreases items, 1
  {
    if items == [] then []
    else if |items| == 1 then PrintNested(items[0], depth, fmt)
    else PrintNested(items[0], depth, fmt) + ItemSeparator(fmt) + PrintItems(items[1..], depth, fmt)
  }

  function PrintMember(m: Member, depth: nat, fmt: bool): bytes
    decreases m, 1
  {
    Indent(depth + 1, fmt) + KeyText(m.key) + NameSeparator(fmt) + PrintNested(m.value, depth, fmt)
  }

  function PrintMembers(members: seq<Member>, depth: nat, fmt: bool): bytes
    decreases members, 2
  {
    if members == [] then []
    else if |members| == 1 then PrintMember(members[0], depth, fmt) + Break(fmt)
    else PrintMember(members[0], depth, fmt) + ([COMMA] + Break(fmt)) + PrintMembers(members[1..], depth, fmt)
  }
}
