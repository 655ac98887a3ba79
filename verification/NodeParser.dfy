/** cJSON's parser as it builds the tree: each parse function fills a struct in place and links the
    structs of nested values below it. */
module NodeParser {
  import opened Bytes
  import opened CText
  import opened JsonStringCode
  import opened Reals
  import opened JsonNumber
  import opened JsonDouble
  import opened JsonNumberCode
  import opened NumberFormat
  import opened JsonTree
  import opened JsonParse
  import opened Nodes
  import opened NodeLists
  import opened NodeTrees

  /** A struct as cJSON_New_Item leaves it, but for its links, kind and name. */
  ghost predicate Unset(item: Node)
    reads item`child, item`valuestring, item`isReference
  {
    item.child == null && item.valuestring == null && !item.isReference
  }

  ghost function Bare(item: Node): Shape
    reads item`name
  {
    Shape(item, item.name, null, [])
  }

  /** The position the parser reports: where the value ends, or the one it blames. */
  ghost predicate Reports<T>(ok: bool, at: nat, r: Parsed<T>) {
    match r
    case Ok(_, next) => ok && at == next
    case Fail(p) => !ok && at == p
  }

  /** The same, once the blanks after the value are skipped. */
  ghost predicate ReportsSkipped<T>(ok: bool, at: nat, s: bytes, r: Parsed<T>) {
    match r
    case Ok(_, next) => ok && at == Skip(s, next)
    case Fail(p) => !ok && at == p
  }

  /** skip(). */
  method SkipBlanks(s: bytes, p: nat) returns (q: nat)
    requires CString(s) && p < |s|
    ensures q == Skip(s, p) < |s|
    ensures forall o: object {:trigger allocated(o)} {:trigger old(allocated(o))} :: allocated(o) ==> old(allocated(o))
  {
    q := p;
    while s[q] != NUL && s[q] <= SPACE
      invariant p <= q < |s| && Skip(s, q) == Skip(s, p)
      decreases |s| - q
    {
      q := q + 1;
    }
  }

  /** strncmp against a literal, up to the literal's length. */
  method StartsWith(s: bytes, p: nat, t: bytes) returns (yes: bool)
    requires CString(s) && p < |s| && forall i :: 0 <= i < |t| ==> t[i] != NUL
    ensures yes == At(s, p, t)
    ensures forall o: object {:trigger allocated(o)} {:trigger old(allocated(o))} :: allocated(o) ==> old(allocated(o))
  {
    var i := 0;
    while i < |t|
      invariant i <= |t| && p + i < |s|
      invariant At(s, p, t) == At(s, p + i, t[i..])
      decreases |t| - i
    {
      if s[p + i] != t[i] {
        return false;
      }
      assert t[i..][1..] == t[i + 1..];
      i := i + 1;
    }
    return true;
  }

  /** parse_string. */
  method ParseStringInto(item: Node, s: bytes, p: nat) returns (ok: bool, at: nat)
    requires CString(s) && Outside(s, p)
    modifies item`valuestring, item`kind
    ensures Reports(ok, at, ParseString(s, p))
    ensures ok ==> item.kind == StringKind && item.valuestring != null && fresh(item.valuestring)
    ensures ok ==> Holds(item.valuestring, ParseString(s, p).value)
    ensures !ok ==> unchanged(item)
    ensures forall o: object {:trigger allocated(o)} {:trigger old(allocated(o))} ::
      allocated(o) ==> old(allocated(o)) || (ok && o == item.valuestring)
  {
    if s[p] != QUOTE {
      return false, p;
    }
    var out;
    out, at := ReadLiteral(s, p);
    item.valuestring := out;
    item.kind := StringKind;
    ok := true;
  }

  /** parse_number. The conversion to an int is only defined for a result that an int can hold. */
  method ParseNumberInto(item: Node, s: bytes, p: nat) returns (at: nat)
    requires CString(s) && p < |s|
    modifies item`valuedouble, item`valueint, item`kind
    ensures item.kind == NumberKind && HasNumber(item, DoubleAt(s, p))
    ensures at == ReadNumber(s, p).next < |s|
    ensures forall o: object {:trigger allocated(o)} {:trigger old(allocated(o))} :: allocated(o) ==> old(allocated(o))
  {
    hide ReadNumber, DoubleAt, Trunc, FitsInt;
    var n;
    n, at := ReadDouble(s, p);
    var i := ToInt(n);
    item.valuedouble, item.valueint := n, i;
    item.kind := NumberKind;
  }

  /** (int)n */
  method ToInt(n: real) returns (i: int)
    ensures FitsInt(Trunc(n)) ==> i == Trunc(n)
    ensures forall o: object {:trigger allocated(o)} {:trigger old(allocated(o))} :: allocated(o) ==> old(allocated(o))
  {
    if FitsInt(Trunc(n)) {
      i := Trunc(n);
    } else {
      i := *;
    }
  }

  // ---------- values ----------

  /** What the parse function put below the item: its string and its children. */
  ghost function Added(sh: Shape): set<object> {
    Some(sh.text) + Below(sh.kids)
  }

  /** The outcome of a parse function: what hangs below the item is a well-formed tree, whether it
      succeeds or fails; on success the tree stands for the parsed value. */
  ghost predicate Built(ok: bool, at: nat, sh: Shape, r: Parsed<Json>)
    reads sh.node`name, sh.node`isReference, sh.node`valuestring, sh.node`child, sh.node`kind
    reads sh.node`valueint, sh.node`valuedouble, Some(sh.text), Below(sh.kids)
  {
    && Reports(ok, at, r) && Separate(sh) && Fits(sh)
    && (r.Ok? ==> Tree(sh, r.value))
  }

  lemma {:induction false} BareFits(item: Node)
    requires Unset(item)
    ensures Separate(Bare(item)) && Fits(Bare(item)) && Added(Bare(item)) == {}
  {
    assert Below([]) == {};
  }

  lemma {:induction false} BuiltLiteral(item: Node, at: nat, v: Json)
    requires Unset(item) && v in {Null, Bool(true), Bool(false)}
    requires item.kind == if v.Null? then NullKind else if v.b then TrueKind else FalseKind
    requires v == Bool(true) ==> item.valueint == 1
    ensures Built(true, at, Bare(item), Ok(v, at))
  {
    BareFits(item);
  }

  lemma {:induction false} BuiltNumber(item: Node, at: nat, x: real)
    requires Unset(item) && item.kind == NumberKind && HasNumber(item, x)
    ensures Built(true, at, Bare(item), Ok(Num(x), at))
  {
    BareFits(item);
  }

  lemma {:induction false} BuiltString(item: Node, at: nat, str: bytes)
    requires item.child == null && !item.isReference && item.kind == StringKind
    requires item.valuestring != null && Holds(item.valuestring, str) && item.valuestring != item.name
    ensures var sh := Shape(item, item.name, item.valuestring, []); Built(true, at, sh, Ok(Str(str), at))
  {
    assert Below([]) == {};
  }

  lemma {:induction false} BuiltNot(item: Node, p: nat)
    requires Unset(item)
    ensures Built(false, p, Bare(item), Fail(p))
  {
    BareFits(item);
  }

  /** The three literals parse_value tries first. */
  method ParseLiteralInto(item: Node, s: bytes, p: nat) returns (len: nat)
    requires CString(s) && Outside(s, p) && Unset(item)
    modifies item`kind, item`valueint
    ensures len > 0 ==> Built(true, p + len, Bare(item), ParseValue(s, p))
    ensures len == 0 ==> !At(s, p, NULL_TEXT) && !At(s, p, FALSE_TEXT) && !At(s, p, TRUE_TEXT)
    ensures forall o: object {:trigger allocated(o)} {:trigger old(allocated(o))} :: allocated(o) ==> old(allocated(o))
  {
    var yes := StartsWith(s, p, NULL_TEXT);
    if yes {
      item.kind := NullKind;
      BuiltLiteral(item, p + 4, Null);
      return 4;
    }
    yes := StartsWith(s, p, FALSE_TEXT);
    if yes {
      item.kind := FalseKind;
      BuiltLiteral(item, p + 5, Bool(false));
      return 5;
    }
    yes := StartsWith(s, p, TRUE_TEXT);
    if yes {
      item.kind, item.valueint := TrueKind, 1;
      BuiltLiteral(item, p + 4, Bool(true));
      return 4;
    }
    return 0;
  }

  /** parse_value. */
  method ParseValueInto(item: Node, s: bytes, p: nat) returns (ok: bool, at: nat, ghost sh: Shape)
    requires CString(s) && Outside(s, p) && Unset(item)
    modifies item`kind, item`child, item`valuestring, item`valueint, item`valuedouble
    ensures sh.node == item && sh.name == item.name && fresh(Added(sh))
    ensures Built(ok, at, sh, ParseValue(s, p))
    ensures forall o: object {:trigger allocated(o)} {:trigger old(allocated(o))} ::
      allocated(o) ==> old(allocated(o)) || o in Added(sh)
    decreases |s| - p, 1
  {
    hide Built, ParseArray, ParseObject, ParseString, DoubleAt, ReadNumber, HasNumber;
    sh := Bare(item);
    BareFits(item);
    var len := ParseLiteralInto(item, s, p);
    if len > 0 {
      return true, p + len, sh;
    }
    if s[p] == QUOTE {
      ok, at := ParseStringInto(item, s, p);
      sh := Shape(item, item.name, item.valuestring, []);
      BuiltString(item, at, ParseString(s, p).value);
    } else if s[p] == MINUS || ZERO <= s[p] <= NINE {
      ok := true;
      at := ParseNumberInto(item, s, p);
      BuiltNumber(item, at, DoubleAt(s, p));
    } else if s[p] == LBRACKET {
      ok, at, sh := ParseArrayInto(item, s, p);
    } else if s[p] == LBRACE {
      ok, at, sh := ParseObjectInto(item, s, p);
    } else {
      ok, at := false, p;
      BuiltNot(item, p);
    }
  }

  /** value = skip(parse_value(item, skip(value))): end is where the value itself ends. */
  method ParseSkipping(item: Node, s: bytes, p: nat) returns (ok: bool, at: nat, ghost sh: Shape, ghost end: nat)
    requires CString(s) && Outside(s, p) && Unset(item)
    modifies item`kind, item`child, item`valuestring, item`valueint, item`valuedouble
    ensures sh.node == item && sh.name == item.name && fresh(Added(sh))
    ensures Built(ok, end, sh, ParseItem(s, p)) && at == (if ok then Skip(s, end) else end) < |s|
    ensures forall o: object {:trigger allocated(o)} {:trigger old(allocated(o))} ::
      allocated(o) ==> old(allocated(o)) || o in Added(sh)
    decreases |s| - p, 2
  {
    var q := SkipBlanks(s, p);
    ok, at, sh := ParseValueInto(item, s, q);
    end := at;
    if ok {
      assert allocated(Below(sh.kids));
      at := SkipBlanks(s, at);
    }
  }

  // ---------- children ----------

  /** The trees stand for the entries, whatever their links. */
  ghost predicate Stand(kids: seq<Shape>, es: seq<Entry>)
    reads Below(kids)
  {
    PartsBelow(kids);
    && SeparateAll(kids) && |kids| == |es|
    && forall i :: 0 <= i < |kids| ==> TreeEntry(kids[i], es[i])
  }

  /** Complete children, and a new struct linked behind them. */
  ghost predicate Pending(kids: seq<Shape>, es: seq<Entry>, child: Node)
    reads Below(kids), child
  {
    NodesBelow(kids);
    Stand(kids, es) && Linked(NodesOf(kids) + [child]) && child !in Below(kids) && Unset(child)
  }

  /** What a complete child consists of, part by part. */
  ghost predicate EntryParts(sh: Shape, e: Entry)
    reads sh.node`name, sh.node`isReference, sh.node`valuestring, sh.node`child, sh.node`kind
    reads sh.node`valueint, sh.node`valuedouble, Some(sh.name), Some(sh.text), Below(sh.kids)
  {
    HasKey(sh, e.key) && TreeHead(sh, e.value) && TreeAll(sh.kids, Entries(e.value))
  }

  lemma {:induction false} StandParts(kids: seq<Shape>, es: seq<Entry>)
    requires Stand(kids, es)
    ensures forall i :: 0 <= i < |kids| ==> EntryParts(kids[i], es[i])
  {
    forall i | 0 <= i < |kids|
      ensures EntryParts(kids[i], es[i])
    {
      assert TreeEntry(kids[i], es[i]);
      assert Tree(kids[i], es[i].value);
    }
  }

  lemma {:induction false} NoneStand(head: Node)
    requires Unset(head) && head.prev == null && head.next == null
    ensures Pending([], [], head) && Below([]) == {}
    ensures Entries(Arr([])) == [] && Entries(Obj([])) == []
  {}

  /** A new item, suffixed to the last child. */
  method NewBehind(child: Node, ghost nodes: seq<Node>) returns (new_item: Node)
    requires nodes != [] && child == nodes[|nodes| - 1] && Linked(nodes)
    modifies child`next
    ensures fresh(new_item) && Unset(new_item) && new_item.name == null
    ensures Linked(nodes + [new_item])
    ensures forall o: object {:trigger allocated(o)} {:trigger old(allocated(o))} ::
      allocated(o) ==> old(allocated(o)) || o == new_item
  {
    LinkedAllDistinct(nodes);
    new_item := new Node();
    child.next := new_item;
    new_item.prev := child;
  }

  method LinkNew(child: Node, ghost kids: seq<Shape>, ghost es: seq<Entry>) returns (new_item: Node)
    requires kids != [] && child == kids[|kids| - 1].node && SeparateAll(kids) && TreeAll(kids, es)
    modifies child`next
    ensures fresh(new_item) && new_item.name == null && Pending(kids, es, new_item)
    ensures forall o: object {:trigger allocated(o)} {:trigger old(allocated(o))} ::
      allocated(o) ==> old(allocated(o)) || o == new_item
  {
    StandParts(kids, es);
    assert allocated(Below(kids));
    new_item := NewBehind(child, NodesOf(kids));
    forall i | 0 <= i < |kids|
      ensures TreeEntry(kids[i], es[i])
    {
      SiblingsApart(new_item, kids, i);
      assert old(EntryParts(kids[i], es[i]));
    }
  }

  lemma {:induction false} Completed(kids: seq<Shape>, es: seq<Entry>, sh: Shape)
    requires Stand(kids, es) && Linked(NodesOf(kids) + [sh.node])
    requires Separate(sh) && Fits(sh) && Footprint(sh) !! Below(kids)
    ensures SeparateAll(kids + [sh]) && FitsAll(kids + [sh])
  {
    AppendedKids(kids, sh);
    forall i | 0 <= i < |kids|
      ensures Fits(kids[i])
    {
      assert TreeEntry(kids[i], es[i]);
      TreeFits(kids[i], es[i].value);
    }
  }

  lemma {:induction false} CompletedTree(kids: seq<Shape>, es: seq<Entry>, sh: Shape, e: Entry)
    requires Stand(kids, es) && Linked(NodesOf(kids) + [sh.node])
    requires TreeEntry(sh, e)
    ensures TreeAll(kids + [sh], es + [e])
  {
    AppendedKids(kids, sh);
  }

  /** A further child, read into the struct behind the others. */
  ghost predicate Extends(kids: seq<Shape>, sh: Shape)
    reads Below(kids + [sh])
  {
    SeparateAll(kids + [sh]) && FitsAll(kids + [sh])
  }

  lemma {:induction false} ExtendsBy(kids: seq<Shape>, es: seq<Entry>, sh: Shape, ok: bool, at: nat, r: Parsed<Json>,
                                     key: Key)
    requires Stand(kids, es) && Linked(NodesOf(kids) + [sh.node])
    requires Built(ok, at, sh, r) && Footprint(sh) !! Below(kids)
    requires r.Ok? ==> HasKey(sh, key)
    ensures Extends(kids, sh)
    ensures r.Ok? ==> TreeAll(kids + [sh], es + [Entry(key, r.value)])
  {
    Completed(kids, es, sh);
    if r.Ok? {
      CompletedTree(kids, es, sh, Entry(key, r.value));
    }
  }

  // ---------- arrays ----------

  /** After the comma or the closing bracket at q: the items still to come. */
  function ItemsTail(s: bytes, q: nat): Parsed<seq<Json>>
    requires Outside(s, q)
  {
    if Peek(s, q) == COMMA then ParseItems(s, q + 1)
    else if Peek(s, q) == RBRACKET then Ok([], q + 1)
    else Fail(q)
  }

  lemma {:induction false} ItemsStep(s: bytes, p: nat)
    requires Outside(s, p)
    ensures var v := ParseItem(s, p);
      ParseItems(s, p) == if v.Fail? then Fail(v.at) else Prepend([v.value], ItemsTail(s, Skip(s, v.next)))
  {
    assert forall v: Json :: [v] + [] == [v];
  }

  /** One value of an array, into the struct just linked for it. */
  method ParseItemInto(child: Node, s: bytes, p: nat, ghost kids: seq<Shape>, ghost es: seq<Entry>)
    returns (ok: bool, at: nat, ghost sh: Shape)
    requires CString(s) && Outside(s, p) && Pending(kids, es, child) && child.name == null
    modifies child`kind, child`child, child`valuestring, child`valueint, child`valuedouble
    ensures sh.node == child && sh.name == null && fresh(Added(sh)) && Extends(kids, sh)
    ensures ReportsSkipped(ok, at, s, ParseItem(s, p)) && at < |s|
    ensures ok ==> TreeAll(kids + [sh], es + [Entry(Unnamed, ParseItem(s, p).value)])
    ensures forall o: object {:trigger allocated(o)} {:trigger old(allocated(o))} ::
      allocated(o) ==> old(allocated(o)) || o in Added(sh)
    decreases |s| - p, 3
  {
    assert allocated(Below(kids));
    ghost var end;
    ok, at, sh, end := ParseSkipping(child, s, p);
    ExtendsBy(kids, es, sh, ok, end, ParseItem(s, p), Unnamed);
  }

  lemma {:induction false} ItemEntriesAppend(items: seq<Json>, v: Json)
    ensures ItemEntries(items + [v]) == ItemEntries(items) + [Entry(Unnamed, v)]
  {}

  lemma {:induction false} PrependAppend<T>(items: seq<T>, x: T, r: Parsed<seq<T>>)
    ensures Prepend(items, Prepend([x], r)) == Prepend(items + [x], r)
  {
    if r.Ok? {
      assert items + ([x] + r.value) == items + [x] + r.value;
    }
  }

  /** A new struct behind the children, and the next value of the array in it. */
  method NextItemInto(child: Node, s: bytes, p: nat, ghost kids: seq<Shape>, ghost items: seq<Json>)
    returns (ok: bool, at: nat, new_item: Node, ghost sh: Shape)
    requires CString(s) && Outside(s, p)
    requires kids != [] && child == kids[|kids| - 1].node && SeparateAll(kids) && TreeAll(kids, ItemEntries(items))
    modifies child`next
    ensures sh.node == new_item && fresh(Footprint(sh)) && Extends(kids, sh)
    ensures ReportsSkipped(ok, at, s, ParseItem(s, p)) && at < |s|
    ensures ok ==> TreeAll(kids + [sh], ItemEntries(items + [ParseItem(s, p).value]))
    ensures forall o: object {:trigger allocated(o)} {:trigger old(allocated(o))} ::
      allocated(o) ==> old(allocated(o)) || o in Footprint(sh)
    decreases |s| - p, 4
  {
    new_item := LinkNew(child, kids, ItemEntries(items));
    ok, at, sh := ParseItemInto(new_item, s, p, kids, ItemEntries(items));
    if ok {
      ItemEntriesAppend(items, ParseItem(s, p).value);
    }
  }

  lemma {:induction false} UnionAssoc(a: set<object>, b: set<object>, c: set<object>)
    ensures (a + b) + c == a + (b + c)
  {}

  /** The loop of parse_array: as long as a comma follows, one more value in a struct linked behind
      the last one. */
  method MoreItemsInto(last: Node, s: bytes, p: nat, ghost kids0: seq<Shape>, ghost items0: seq<Json>)
    returns (ok: bool, at: nat, ghost kids: seq<Shape>, ghost made: set<object>)
    requires CString(s) && Outside(s, p)
    requires kids0 != [] && last == kids0[|kids0| - 1].node && SeparateAll(kids0) && TreeAll(kids0, ItemEntries(items0))
    modifies last`next
    ensures kids0 <= kids && SeparateAll(kids) && FitsAll(kids)
    ensures Below(kids) == Below(kids0) + made && fresh(made)
    ensures Reports(ok, at, Prepend(items0, ItemsTail(s, p)))
    ensures ok ==> TreeAll(kids, ItemEntries(Prepend(items0, ItemsTail(s, p)).value))
    ensures forall o: object {:trigger allocated(o)} {:trigger old(allocated(o))} ::
      allocated(o) ==> old(allocated(o)) || o in made
    decreases |s| - p, 5
  {
    hide SeparateAll, Below, TreeAll, FitsAll, ParseItem, ParseItems;
    ghost var items := items0;
    var child := last;
    ok, at, kids, made := true, p, kids0, {};
    while s[at] == COMMA
      invariant Outside(s, at) && p <= at
      invariant kids0 <= kids && child == kids[|kids| - 1].node && (child == last || fresh(child))
      invariant Below(kids) == Below(kids0) + made && fresh(made)
      invariant SeparateAll(kids) && TreeAll(kids, ItemEntries(items))
      invariant Prepend(items0, ItemsTail(s, p)) == Prepend(items, ItemsTail(s, at))
      invariant forall o: object {:trigger allocated(o)} {:trigger old(allocated(o))} ::
        allocated(o) ==> old(allocated(o)) || o in made
      decreases |s| - at
    {
      ItemsStep(s, at + 1);
      ghost var v := ParseItem(s, at + 1);
      ghost var sh;
      ok, at, child, sh := NextItemInto(child, s, at + 1, kids, items);
      ghost var own := Footprint(sh);
      assert fresh(own);
      AppendedKids(kids, sh);
      UnionAssoc(Below(kids0), made, own);
      kids, made := kids + [sh], made + own;
      if !ok {
        return;
      }
      PrependAppend(items, v.value, ItemsTail(s, at));
      items := items + [v.value];
    }
    TreesFit(kids, ItemEntries(items));
    assert items + [] == items;
    if s[at] == RBRACKET {
      at := at + 1;
    } else {
      ok := false;
    }
  }

  /** A list of one child. */
  lemma {:induction false} FirstKid(sh: Shape)
    ensures var kids: seq<Shape> := [] + [sh]; kids == [sh] && kids[0] == sh
    ensures Below([sh]) == {sh.node} + (Some(sh.name) + Added(sh))
  {
    BelowOne(sh);
  }

  /** The body of parse_array after the opening bracket. */
  method ParseItemsInto(head: Node, s: bytes, q: nat)
    returns (ok: bool, at: nat, ghost kids: seq<Shape>, ghost made: set<object>)
    requires CString(s) && Outside(s, q) && Unset(head)
    requires head.name == null && head.prev == null && head.next == null
    modifies head
    ensures kids != [] && kids[0].node == head && SeparateAll(kids) && FitsAll(kids)
    ensures Below(kids) == {head} + made && fresh(made)
    ensures Reports(ok, at, ParseItems(s, q))
    ensures ok ==> TreeAll(kids, ItemEntries(ParseItems(s, q).value))
    ensures forall o: object {:trigger allocated(o)} {:trigger old(allocated(o))} ::
      allocated(o) ==> old(allocated(o)) || o in made
    decreases |s| - q, 6
  {
    hide SeparateAll, FitsAll, TreeAll, ParseItem, ParseItems, Below, Linked, Stand, Pending, Added;
    ghost var none: seq<Shape>, items: seq<Json>, v := [], [], ParseItem(s, q);
    NoneStand(head);
    ghost var sh, more;
    ok, at, sh := ParseItemInto(head, s, q, none, ItemEntries(items));
    FirstKid(sh);
    kids, made := [sh], Some(sh.name) + Added(sh);
    ItemsStep(s, q);
    if ok {
      ItemEntriesAppend(items, v.value);
      assert items + [v.value] == [v.value];
      ok, at, kids, more := MoreItemsInto(head, s, at, kids, [v.value]);
      UnionAssoc({head}, made, more);
      made := made + more;
    }
  }

  /** The array item around its children. */
  lemma {:induction false} BuiltArray(item: Node, kids: seq<Shape>, items: seq<Json>, at: nat)
    requires item.child == Nth(NodesOf(kids), 0) && item.valuestring == null && !item.isReference
    requires item.kind == ArrayKind && SeparateAll(kids) && TreeAll(kids, ItemEntries(items))
    requires item !in Below(kids) && (item.name != null ==> item.name !in Below(kids))
    ensures Built(true, at, Shape(item, item.name, null, kids), Ok(Arr(items), at))
  {
    TreesFit(kids, ItemEntries(items));
  }

  lemma {:induction false} BuiltPartly(item: Node, kids: seq<Shape>, at: nat)
    requires item.child == Nth(NodesOf(kids), 0) && item.valuestring == null && !item.isReference
    requires SeparateAll(kids) && FitsAll(kids)
    requires item !in Below(kids) && (item.name != null ==> item.name !in Below(kids))
    ensures Built(false, at, Shape(item, item.name, null, kids), Fail(at))
  {}

  lemma {:induction false} NoChildren()
    ensures NodesOf([]) == [] && Below([]) == {} && SeparateAll([])
    ensures TreeAll([], ItemEntries([])) && TreeAll([], MemberEntries([]))
  {}

  /** A new item as the first child. */
  method NewChild(item: Node) returns (child: Node)
    modifies item`child
    ensures item.child == child && fresh(child) && Unset(child)
    ensures child.name == null && child.prev == null && child.next == null
    ensures forall o: object {:trigger allocated(o)} {:trigger old(allocated(o))} ::
      allocated(o) ==> old(allocated(o)) || o == child
  {
    child := new Node();
    item.child := child;
  }

  /** parse_array. */
  method ParseArrayInto(item: Node, s: bytes, p: nat) returns (ok: bool, at: nat, ghost sh: Shape)
    requires CString(s) && Outside(s, p) && Unset(item) && Peek(s, p) == LBRACKET
    modifies item`kind, item`child, item`valuestring, item`valueint, item`valuedouble
    ensures sh.node == item && sh.name == item.name && fresh(Added(sh))
    ensures Built(ok, at, sh, ParseArray(s, p))
    ensures forall o: object {:trigger allocated(o)} {:trigger old(allocated(o))} ::
      allocated(o) ==> old(allocated(o)) || o in Added(sh)
    decreases |s| - p, 0
  {
    hide SeparateAll, FitsAll, TreeAll, ParseItems, Built;
    item.kind := ArrayKind;
    var q := SkipBlanks(s, p + 1);
    if s[q] == RBRACKET {
      BareFits(item);
      NoChildren();
      BuiltArray(item, [], [], q + 1);
      return true, q + 1, Bare(item);
    }
    var child := NewChild(item);
    ghost var kids, made;
    ok, at, kids, made := ParseItemsInto(child, s, q);
    sh := Shape(item, item.name, null, kids);
    assert Added(sh) == Below(kids);
    if ok {
      BuiltArray(item, kids, ParseItems(s, q).value, at);
    } else {
      BuiltPartly(item, kids, at);
    }
  }

  // ---------- objects ----------

  /** After the comma or the closing brace at q: the members still to come. */
  function MembersTail(s: bytes, q: nat): Parsed<seq<Member>>
    requires Outside(s, q)
  {
    if Peek(s, q) == COMMA then ParseMembers(s, q + 1)
    else if Peek(s, q) == RBRACE then Ok([], q + 1)
    else Fail(q)
  }

  lemma {:induction false} MembersStep(s: bytes, p: nat)
    requires Outside(s, p)
    ensures var m := ParseMember(s, p);
      ParseMembers(s, p) == if m.Fail? then Fail(m.at) else Prepend([m.value], MembersTail(s, Skip(s, m.next)))
  {
    assert forall m: Member :: [m] + [] == [m];
  }

  function MemberEntry(m: Member): Entry {
    Entry(m.key, m.value)
  }

  lemma {:induction false} MemberEntriesAppend(members: seq<Member>, m: Member)
    ensures MemberEntries(members + [m]) == MemberEntries(members) + [MemberEntry(m)]
  {}

  /** Where the name and the colon of a member end, or the position to blame. */
  function ParseName(s: bytes, p: nat): (r: Parsed<bytes>)
    requires Outside(s, p)
    ensures r.Ok? ==> p < r.next && Outside(s, r.next)
    ensures r.Fail? ==> p <= r.at < |s|
  {
    var k := ParseString(s, Skip(s, p));
    if k.Fail? then Fail(k.at)
    else
      var q := Skip(s, k.next);
      if Peek(s, q) != COLON then Fail(q) else Ok(k.value, q + 1)
  }

  lemma {:induction false} MemberStep(s: bytes, p: nat)
    requires Outside(s, p)
    ensures var k := ParseName(s, p);
      ParseMember(s, p) ==
        if k.Fail? then Fail(k.at)
        else
          var v := ParseItem(s, k.next);
          if v.Fail? then Fail(v.at) else Ok(Member(Named(k.value), v.value), v.next)
  {}

  /** The string that becomes the name of the child, and the colon after it. */
  method ParseNameInto(child: Node, s: bytes, p: nat) returns (ok: bool, at: nat)
    requires CString(s) && Outside(s, p) && Unset(child) && child.name == null
    modifies child`name, child`valuestring, child`kind
    ensures Unset(child) && fresh(Some(child.name))
    ensures Reports(ok, at, ParseName(s, p))
    ensures ok ==> child.name != null && Holds(child.name, ParseName(s, p).value)
    ensures forall o: object {:trigger allocated(o)} {:trigger old(allocated(o))} ::
      allocated(o) ==> old(allocated(o)) || o in Some(child.name)
  {
    var q := SkipBlanks(s, p);
    ok, at := ParseStringInto(child, s, q);
    if ok {
      at := SkipBlanks(s, at);
      child.name := child.valuestring;
      child.valuestring := null;
      if s[at] != COLON {
        ok := false;
      } else {
        at := at + 1;
      }
    }
  }

  /** One name and value of an object, into the struct just linked for it. */
  method ParseMemberInto(child: Node, s: bytes, p: nat, ghost kids: seq<Shape>, ghost es: seq<Entry>)
    returns (ok: bool, at: nat, ghost sh: Shape)
    requires CString(s) && Outside(s, p) && Pending(kids, es, child) && child.name == null
    modifies child`kind, child`child, child`valuestring, child`valueint, child`valuedouble, child`name
    ensures sh.node == child && fresh(Some(sh.name)) && fresh(Added(sh)) && Extends(kids, sh)
    ensures ReportsSkipped(ok, at, s, ParseMember(s, p)) && at < |s|
    ensures ok ==> TreeAll(kids + [sh], es + [MemberEntry(ParseMember(s, p).value)])
    ensures forall o: object {:trigger allocated(o)} {:trigger old(allocated(o))} ::
      allocated(o) ==> old(allocated(o)) || o in Some(sh.name) + Added(sh)
    decreases |s| - p, 3
  {
    hide Stand, Linked, ParseMember, ParseItem, Fits, Tree;
    assert allocated(Below(kids));
    MemberStep(s, p);
    ok, at := ParseNameInto(child, s, p);
    sh := Bare(child);
    if !ok {
      BuiltNot(child, at);
      ExtendsBy(kids, es, sh, ok, at, Fail(at), Unnamed);
      return;
    }
    ghost var k := ParseName(s, p);
    ghost var end;
    ok, at, sh, end := ParseSkipping(child, s, at);
    ExtendsBy(kids, es, sh, ok, end, ParseItem(s, k.next), Named(k.value));
  }

  /** A new struct behind the children, and the next member of the object in it. */
  method NextMemberInto(child: Node, s: bytes, p: nat, ghost kids: seq<Shape>, ghost members: seq<Member>)
    returns (ok: bool, at: nat, new_item: Node, ghost sh: Shape)
    requires CString(s) && Outside(s, p)
    requires kids != [] && child == kids[|kids| - 1].node
    requires SeparateAll(kids) && TreeAll(kids, MemberEntries(members))
    modifies child`next
    ensures sh.node == new_item && fresh(Footprint(sh)) && Extends(kids, sh)
    ensures ReportsSkipped(ok, at, s, ParseMember(s, p)) && at < |s|
    ensures ok ==> TreeAll(kids + [sh], MemberEntries(members + [ParseMember(s, p).value]))
    ensures forall o: object {:trigger allocated(o)} {:trigger old(allocated(o))} ::
      allocated(o) ==> old(allocated(o)) || o in Footprint(sh)
    decreases |s| - p, 4
  {
    hide ParseMember, Fits, Tree;
    new_item := LinkNew(child, kids, MemberEntries(members));
    ok, at, sh := ParseMemberInto(new_item, s, p, kids, MemberEntries(members));
    if ok {
      MemberEntriesAppend(members, ParseMember(s, p).value);
    }
  }

  /** The loop of parse_object: as long as a comma follows, one more name and value. */
  method MoreMembersInto(last: Node, s: bytes, p: nat, ghost kids0: seq<Shape>, ghost members0: seq<Member>)
    returns (ok: bool, at: nat, ghost kids: seq<Shape>, ghost made: set<object>)
    requires CString(s) && Outside(s, p)
    requires kids0 != [] && last == kids0[|kids0| - 1].node
    requires SeparateAll(kids0) && TreeAll(kids0, MemberEntries(members0))
    modifies last`next
    ensures kids0 <= kids && SeparateAll(kids) && FitsAll(kids)
    ensures Below(kids) == Below(kids0) + made && fresh(made)
    ensures Reports(ok, at, Prepend(members0, MembersTail(s, p)))
    ensures ok ==> TreeAll(kids, MemberEntries(Prepend(members0, MembersTail(s, p)).value))
    ensures forall o: object {:trigger allocated(o)} {:trigger old(allocated(o))} ::
      allocated(o) ==> old(allocated(o)) || o in made
    decreases |s| - p, 5
  {
    hide SeparateAll, Below, TreeAll, FitsAll, ParseMember, ParseMembers;
    ghost var members := members0;
    var child := last;
    ok, at, kids, made := true, p, kids0, {};
    while s[at] == COMMA
      invariant Outside(s, at) && p <= at
      invariant kids0 <= kids && child == kids[|kids| - 1].node && (child == last || fresh(child))
      invariant Below(kids) == Below(kids0) + made && fresh(made)
      invariant SeparateAll(kids) && TreeAll(kids, MemberEntries(members))
      invariant Prepend(members0, MembersTail(s, p)) == Prepend(members, MembersTail(s, at))
      invariant forall o: object {:trigger allocated(o)} {:trigger old(allocated(o))} ::
        allocated(o) ==> old(allocated(o)) || o in made
      decreases |s| - at
    {
      MembersStep(s, at + 1);
      ghost var m := ParseMember(s, at + 1);
      ghost var sh;
      ok, at, child, sh := NextMemberInto(child, s, at + 1, kids, members);
      ghost var own := Footprint(sh);
      assert fresh(own);
      AppendedKids(kids, sh);
      UnionAssoc(Below(kids0), made, own);
      kids, made := kids + [sh], made + own;
      if !ok {
        return;
      }
      PrependAppend(members, m.value, MembersTail(s, at));
      members := members + [m.value];
    }
    TreesFit(kids, MemberEntries(members));
    assert members + [] == members;
    if s[at] == RBRACE {
      at := at + 1;
    } else {
      ok := false;
    }
  }

  /** The body of parse_object after the opening brace. */
  method ParseMembersInto(head: Node, s: bytes, q: nat)
    returns (ok: bool, at: nat, ghost kids: seq<Shape>, ghost made: set<object>)
    requires CString(s) && Outside(s, q) && Unset(head)
    requires head.name == null && head.prev == null && head.next == null
    modifies head
    ensures kids != [] && kids[0].node == head && SeparateAll(kids) && FitsAll(kids)
    ensures Below(kids) == {head} + made && fresh(made)
    ensures Reports(ok, at, ParseMembers(s, q))
    ensures ok ==> TreeAll(kids, MemberEntries(ParseMembers(s, q).value))
    ensures forall o: object {:trigger allocated(o)} {:trigger old(allocated(o))} ::
      allocated(o) ==> old(allocated(o)) || o in made
    decreases |s| - q, 6
  {
    hide SeparateAll, FitsAll, TreeAll, ParseMember, ParseMembers, Below, Linked, Stand, Pending, Added;
    ghost var none: seq<Shape>, members: seq<Member>, m := [], [], ParseMember(s, q);
    NoneStand(head);
    ghost var sh, more;
    ok, at, sh := ParseMemberInto(head, s, q, none, MemberEntries(members));
    FirstKid(sh);
    kids, made := [sh], Some(sh.name) + Added(sh);
    MembersStep(s, q);
    if ok {
      MemberEntriesAppend(members, m.value);
      assert members + [m.value] == [m.value];
      ok, at, kids, more := MoreMembersInto(head, s, at, kids, [m.value]);
      UnionAssoc({head}, made, more);
      made := made + more;
    }
  }

  lemma {:induction false} BuiltObject(item: Node, kids: seq<Shape>, members: seq<Member>, at: nat)
    requires item.child == Nth(NodesOf(kids), 0) && item.valuestring == null && !item.isReference
    requires item.kind == ObjectKind && SeparateAll(kids) && TreeAll(kids, MemberEntries(members))
    requires item !in Below(kids) && (item.name != null ==> item.name !in Below(kids))
    ensures Built(true, at, Shape(item, item.name, null, kids), Ok(Obj(members), at))
  {
    TreesFit(kids, MemberEntries(members));
  }

  /** parse_object. */
  method ParseObjectInto(item: Node, s: bytes, p: nat) returns (ok: bool, at: nat, ghost sh: Shape)
    requires CString(s) && Outside(s, p) && Unset(item) && Peek(s, p) == LBRACE
    modifies item`kind, item`child, item`valuestring, item`valueint, item`valuedouble
    ensures sh.node == item && sh.name == item.name && fresh(Added(sh))
    ensures Built(ok, at, sh, ParseObject(s, p))
    ensures forall o: object {:trigger allocated(o)} {:trigger old(allocated(o))} ::
      allocated(o) ==> old(allocated(o)) || o in Added(sh)
    decreases |s| - p, 0
  {
    hide SeparateAll, FitsAll, TreeAll, ParseMembers, Built;
    item.kind := ObjectKind;
    var q := SkipBlanks(s, p + 1);
    if s[q] == RBRACE {
      BareFits(item);
      NoChildren();
      BuiltObject(item, [], [], q + 1);
      return true, q + 1, Bare(item);
    }
    var child := NewChild(item);
    ghost var kids, made;
    ok, at, kids, made := ParseMembersInto(child, s, q);
    sh := Shape(item, item.name, null, kids);
    assert Added(sh) == Below(kids);
    if ok {
      BuiltObject(item, kids, ParseMembers(s, q).value, at);
    } else {
      BuiltPartly(item, kids, at);
    }
  }

  // ---------- whole texts ----------

  /** A root and everything below it is freed. */
  method Discard(root: Node, ghost sh: Shape) returns (freed: seq<object>)
    requires root == sh.node && root.prev == null && root.next == null && Separate(sh) && Fits(sh)
    ensures FreesExactly(freed, Footprint(sh))
    ensures forall o: object {:trigger allocated(o)} {:trigger old(allocated(o))} :: allocated(o) ==> old(allocated(o))
  {
    BelowOne(sh);
    FitsAlone(sh);
    freed := Delete(root, [sh]);
  }

  /** cJSON_Parse: the tree of the first value; or nothing, and then everything that was allocated on
      the way is freed, once each, and ep tells the position to blame. */
  method ParseText(s: bytes) returns (c: Node?, ep: nat, ghost sh: Shape, freed: seq<object>)
    requires CString(s) && Outside(s, 0)
    ensures fresh(Footprint(sh)) && Separate(sh)
    ensures forall o: object {:trigger allocated(o)} {:trigger old(allocated(o))} ::
      allocated(o) ==> old(allocated(o)) || o in Footprint(sh)
    ensures c != null ==> Parse(s).Ok? && c == sh.node && Tree(sh, Parse(s).value)
    ensures c != null ==> c.name == null && c.next == null && c.prev == null && freed == []
    ensures c == null ==> Parse(s) == Fail(ep) && FreesExactly(freed, Footprint(sh))
  {
    hide Separate, Fits, Tree, FreesExactly, ParseValue, Outside, Below;
    var root := new Node();
    var p := SkipBlanks(s, 0);
    var ok;
    ok, ep, sh := ParseValueInto(root, s, p);
    c, freed := root, [];
    if !ok {
      freed := Discard(root, sh);
      c := null;
    }
  }
}
