/** json_event.c: a parsed tree becomes an event with one field for every scalar in it. */
module JsonEvents {
  import opened Bytes
  import opened CText
  import opened JsonString
  import opened JsonStringCode
  import opened NumberFormat
  import opened NumberReread
  import opened JsonTree
  import opened JsonParse
  import opened JsonRoundTrip
  import opened ParsedText
  import opened Seqs
  import opened Buffers
  import opened Nodes
  import NodeLists
  import opened NodeTrees
  import NodeParser
  import NodePrinter
  import opened Fields
  import opened Events

  // ---------- what the walk computes ----------

  predicate IsScalar(v: Json) {
    !v.Arr? && !v.Obj?
  }

  /** The value string of a scalar. */
  function ScalarText(v: Json): bytes
    requires IsScalar(v)
  {
    match v
    case Null => [MINUS]
    case Bool(b) => if b then TRUE_TEXT else FALSE_TEXT
    case Num(x) => FormatNumber(x)
    case Str(t) => t
  }

  /** The name of an item under a prefix: at the root an unnamed item has the empty name, and an
      empty prefix is no prefix. */
  function NameUnder(prefix: bytes, key: Key): bytes {
    if prefix == [] then (if key.Named? then key.name else [])
    else prefix + [DOT] + (if key.Named? then key.name else [STAR])
  }

  /** The field of one item, if it is a scalar. */
  function OwnField(e: Entry, prefix: bytes): seq<Record> {
    if IsScalar(e.value) then [Record(NameUnder(prefix, e.key), [ScalarText(e.value)])] else []
  }

  function FlattenEntry(e: Entry, prefix: bytes): seq<Record>
    decreases e.value, 1
  {
    OwnField(e, prefix) + FlattenBelow(e, prefix)
  }

  function FlattenBelow(e: Entry, prefix: bytes): seq<Record>
    decreases e.value, 0
  {
    EntriesSmaller(e.value);
    Flatten(Entries(e.value), NameUnder(prefix, e.key), e.value)
  }

  /** The fields of a sibling list below bound, in document order. */
  function Flatten(es: seq<Entry>, prefix: bytes, ghost bound: Json): seq<Record>
    requires forall i :: 0 <= i < |es| ==> es[i].value < bound
    decreases bound, 0, |es|
  {
    if es == [] then [] else FlattenEntry(es[0], prefix) + Flatten(es[1..], prefix, bound)
  }

  lemma {:induction false} EntriesSmaller(v: Json)
    ensures forall i :: 0 <= i < |Entries(v)| ==> Entries(v)[i].value < v
  {}

  lemma {:induction false} FlattenNext(es: seq<Entry>, i: nat, prefix: bytes, bound: Json)
    requires i < |es| && forall j :: 0 <= j < |es| ==> es[j].value < bound
    ensures Flatten(es[i..], prefix, bound) == FlattenEntry(es[i], prefix) + Flatten(es[i + 1..], prefix, bound)
  {
    assert es[i..][0] == es[i] && es[i..][1..] == es[i + 1..];
  }

  // ---------- the walk ----------

  /** es_newStrFromCStr(str, strlen(str)) */
  method FromCStr(src: array<byte>, ghost u: bytes) returns (t: bytes)
    requires Holds(src, u) && NulFree(u)
    ensures t == u
    ensures forall o: object {:trigger allocated(o)} {:trigger old(allocated(o))} :: allocated(o) ==> old(allocated(o))
  {
    t := [];
    var i := 0;
    while src[i] != NUL
      invariant i <= |u| && t == u[..i]
      invariant forall o: object {:trigger allocated(o)} {:trigger old(allocated(o))} ::
        allocated(o) ==> old(allocated(o))
      decreases |u| - i
    {
      HoldsAt(src, u, i);
      t := t + [src[i]];
      i := i + 1;
    }
    HoldsAt(src, u, i);
    assert u[..i] == u;
  }

  /** The value string callback gives to the new field. The text of a number is freed once it was copied;
      if it does not fit its buffer, there is nothing to go on with. */
  method ValueString(item: Node, ghost sh: Shape, ghost v: Json)
    returns (ok: bool, valstr: bytes, freed: seq<object>, ghost gone: set<object>)
    requires item == sh.node && Tree(sh, v) && TextsNulFree(v) && IsScalar(v)
    ensures ok <==> NumbersFit(v)
    ensures ok ==> valstr == ScalarText(v)
    ensures fresh(gone) && FreesExactly(freed, gone)
    ensures forall o: object {:trigger allocated(o)} {:trigger old(allocated(o))} ::
      allocated(o) ==> old(allocated(o)) || o in gone
  {
    hide Tree;
    TreeParts(sh, v);
    FreesNothing();
    ok, valstr, freed, gone := true, [], [], {};
    match item.kind
    case StringKind => valstr := FromCStr(item.valuestring, v.text);
    case NumberKind =>
      var str := NodePrinter.PrintNumber(item, v.value);
      ok := str != null;
      if ok {
        valstr := FromCStr(str, FormatNumber(v.value));
        freed, gone := [str], {str};
      }
    case NullKind => valstr := [MINUS];
    case FalseKind => valstr := FALSE_TEXT;
    case TrueKind => valstr := TRUE_TEXT;
    case _ => assert false;
  }

  /** callback: a scalar becomes a field at the end of the bucket; it always asks to go on below. */
  method Callback(fields: FieldBucket, name: bytes, item: Node, ghost sh: Shape, ghost v: Json)
    returns (ok: bool, freed: seq<object>, ghost made: set<object>, ghost gone: set<object>)
    requires fields.Valid() && item == sh.node && Tree(sh, v) && TextsNulFree(v)
    modifies fields, Tail(fields.nodes)`next
    ensures ok <==> (IsScalar(v) ==> NumbersFit(v))
    ensures fields.Valid()
    ensures var own := if IsScalar(v) then [Record(name, [ScalarText(v)])] else [];
      ok ==> fields.contents == old(fields.contents) + own
    ensures BucketParts(fields) == old(BucketParts(fields)) + made && fresh(made)
    ensures fresh(gone) && gone !! made && FreesExactly(freed, gone)
    ensures forall o: object {:trigger allocated(o)} {:trigger old(allocated(o))} ::
      allocated(o) ==> old(allocated(o)) || o in made || o in gone
  {
    hide Tree, BucketChained, AllSay, TextsNulFree, NumbersFit, FreesExactly, ScalarText;
    TreeParts(sh, v);
    FreesNothing();
    var isContainer := item.kind == ArrayKind || item.kind == ObjectKind;
    ok, freed, made, gone := true, [], {}, {};
    if !isContainer {
      assert allocated(fields.owned);
      var valstr;
      ok, valstr, freed, gone := ValueString(item, sh, v);
      if ok {
        made := AppendNew(fields, name, valstr);
      }
    }
  }

  /** A new single-valued field at the end of the bucket. */
  method AppendNew(fields: FieldBucket, name: bytes, valstr: bytes) returns (ghost made: set<object>)
    requires fields.Valid()
    modifies fields, Tail(fields.nodes)`next
    ensures fields.Valid() && fields.contents == old(fields.contents) + [Record(name, [valstr])]
    ensures BucketParts(fields) == old(BucketParts(fields)) + made && fresh(made)
    ensures forall o: object {:trigger allocated(o)} {:trigger old(allocated(o))} ::
      allocated(o) ==> old(allocated(o)) || o in made
  {
    hide BucketChained, AllSay;
    ghost var before := fields.nodes;
    assert allocated(fields.owned);
    var f := new Field.FromNameValue(name, valstr);
    fields.AddField(f, Record(name, [valstr]));
    ListMore(before, fields.nodes);
    made := {fields.nodes[|before|], f};
  }

  /** sprintf(newprefix, "%s.%s", prefix, name), or the name alone under an empty prefix. */
  method NewPrefix(item: Node, prefix: bytes, ghost sh: Shape, ghost key: Key) returns (newprefix: bytes)
    requires item.name == sh.name && HasKey(sh, key) && (key.Named? ==> NulFree(key.name))
    ensures newprefix == NameUnder(prefix, key)
    ensures forall o: object {:trigger allocated(o)} {:trigger old(allocated(o))} ::
      allocated(o) ==> old(allocated(o))
  {
    var name := [];
    if item.name != null {
      name := FromCStr(item.name, key.name);
    }
    if |prefix| == 0 {
      newprefix := name;
    } else {
      if item.name == null {
        name := [STAR];
      }
      newprefix := prefix + [DOT] + name;
    }
  }

  /** The numbers of the first i entries fit. */
  predicate EntriesFit(es: seq<Entry>, i: nat)
    requires i <= |es|
  {
    forall j :: 0 <= j < i ==> NumbersFit(es[j].value)
  }

  lemma {:induction false} FitsEntry(es: seq<Entry>, i: nat)
    requires i < |es|
    ensures EntriesFit(es, i + 1) <==> EntriesFit(es, i) && NumbersFit(es[i].value)
    ensures EntriesFit(es, |es|) ==> NumbersFit(es[i].value)
  {
    hide NumbersFit;
  }

  lemma {:induction false} NoneFit(es: seq<Entry>)
    ensures EntriesFit(es, 0)
  {}

  lemma {:induction false} FitsBelow(v: Json)
    ensures NumbersFit(v) <==> (IsScalar(v) ==> NumbersFit(v)) && EntriesFit(Entries(v), |Entries(v)|)
  {}

  lemma {:induction false} TextsBelow(v: Json, i: nat)
    requires TextsNulFree(v) && i < |Entries(v)|
    ensures TextsNulFree(Entries(v)[i].value)
    ensures Entries(v)[i].key.Named? ==> NulFree(Entries(v)[i].key.name)
    ensures Entries(v)[i].value < v
  {}

  lemma {:induction false} ListParts(b: FieldBucket)
    ensures b in BucketParts(b) && forall n :: n in b.nodes ==> n in BucketParts(b)
  {}

  lemma {:induction false} PartBelow(kids: seq<Shape>, i: nat)
    requires i < |kids|
    ensures Below(kids[i].kids) <= Below(kids)
  {
    PartsBelow(kids);
  }

  lemma {:induction false} NothingBelow(sh: Shape, e: Entry, prefix: bytes)
    requires Tree(sh, e.value) && sh.node.child == null
    ensures FlattenBelow(e, prefix) == [] && Entries(e.value) == []
  {
    assert |sh.kids| == |Entries(e.value)|;
    assert |NodesOf(sh.kids)| == |sh.kids|;
  }

  lemma {:induction false} SameLength(kids: seq<Shape>, es: seq<Entry>)
    requires TreeAll(kids, es)
    ensures |kids| == |es|
  {}

  lemma {:induction false} FlattenNone(prefix: bytes, v: Json)
    ensures Flatten([], prefix, v) == []
  {}

  /** The two parts of an entry's fields, under the name the walk gives to it. */
  lemma {:induction false} EntryIs(e: Entry, prefix: bytes, name: bytes)
    requires name == NameUnder(prefix, e.key)
    ensures OwnField(e, prefix) == if IsScalar(e.value) then [Record(name, [ScalarText(e.value)])] else []
    ensures FlattenBelow(e, prefix) == (EntriesSmaller(e.value); Flatten(Entries(e.value), name, e.value))
    ensures FlattenEntry(e, prefix) == OwnField(e, prefix) + FlattenBelow(e, prefix)
  {}

  /** One turn of the walk: the item's own field, and then those below it. */
  method WalkItem(fields: FieldBucket, item: Node, prefix: bytes, ghost kids: seq<Shape>, ghost v: Json, ghost i: nat)
    returns (ok: bool, freed: seq<object>, ghost made: set<object>, ghost gone: set<object>)
    requires fields.Valid() && Below(kids) !! BucketParts(fields)
    requires TreeAll(kids, Entries(v)) && TextsNulFree(v) && i < |kids| == |Entries(v)| && item == kids[i].node
    modifies BucketParts(fields)
    ensures ok <==> NumbersFit(Entries(v)[i].value)
    ensures fields.Valid()
    ensures ok ==> fields.contents == old(fields.contents) + FlattenEntry(Entries(v)[i], prefix)
    ensures BucketParts(fields) == old(BucketParts(fields)) + made && fresh(made)
    ensures fresh(gone) && gone !! made && FreesExactly(freed, gone)
    ensures forall o: object {:trigger allocated(o)} {:trigger old(allocated(o))} ::
      allocated(o) ==> old(allocated(o)) || o in made || o in gone
    decreases kids[i]
  {
    hide Tree, TreeAll, BucketChained, AllSay, Below, Flatten, Entries, OwnField, NameUnder, FlattenBelow;
    hide HasKey, FlattenEntry, ScalarText, TextsNulFree, NumbersFit, EntriesFit, FreesExactly;
    ghost var e := Entries(v)[i];
    ChildAt(kids, Entries(v), i);
    TextsBelow(v, i);
    FitsBelow(e.value);
    PartBelow(kids, i);
    ListParts(fields);
    assert allocated(Below(kids));
    var newprefix := NewPrefix(item, prefix, kids[i], e.key);
    ChildAt(kids, Entries(v), i);
    ghost var start, more := BucketParts(fields), {};
    EntryIs(e, prefix, newprefix);
    Assoc(fields.contents, OwnField(e, prefix), FlattenBelow(e, prefix));
    ok, freed, made, gone := Callback(fields, newprefix, item, kids[i], e.value);
    if !ok {
      return;
    }
    ChildAt(kids, Entries(v), i);
    TreeParts(kids[i], e.value);
    if item.child != null {
      var after;
      ghost var lost;
      ok, after, more, lost := ParseAndCallback(fields, item.child, newprefix, kids[i].kids, e.value);
      FreesBoth(freed, gone, after, lost);
      freed, gone := freed + after, gone + lost;
    } else {
      NothingBelow(kids[i], e, prefix);
      NoneFit(Entries(e.value));
    }
    NodeParser.UnionAssoc(start, made, more);
    made := made + more;
  }

  /** parse_and_callback over a sibling list: one field for each scalar, in document order, unless a
      number does not fit its buffer. The entries of v are the list; v itself only bounds the recursion. */
  method ParseAndCallback(fields: FieldBucket, first: Node?, prefix: bytes, ghost kids: seq<Shape>, ghost v: Json)
    returns (ok: bool, freed: seq<object>, ghost made: set<object>, ghost gone: set<object>)
    requires fields.Valid() && Below(kids) !! BucketParts(fields)
    requires first == Nth(NodesOf(kids), 0) && TreeAll(kids, Entries(v)) && TextsNulFree(v)
    modifies BucketParts(fields)
    ensures ok <==> EntriesFit(Entries(v), |Entries(v)|)
    ensures fields.Valid()
    ensures ok ==> fields.contents == old(fields.contents) + (EntriesSmaller(v); Flatten(Entries(v), prefix, v))
    ensures BucketParts(fields) == old(BucketParts(fields)) + made && fresh(made)
    ensures fresh(gone) && gone !! made && FreesExactly(freed, gone)
    ensures forall o: object {:trigger allocated(o)} {:trigger old(allocated(o))} ::
      allocated(o) ==> old(allocated(o)) || o in made || o in gone
    decreases kids
  {
    hide Tree, TreeAll, BucketChained, AllSay, Below, Flatten, FlattenEntry;
    hide TextsNulFree, NumbersFit, EntriesFit, FreesExactly;
    var item := first;
    ghost var i, es, start := 0, Entries(v), BucketParts(fields);
    ok, freed, made, gone := true, [], {}, {};
    EntriesSmaller(v);
    SameLength(kids, es);
    NoneFit(es);
    FreesNothing();
    assert es[0..] == es;
    while item != null
      invariant i <= |kids| == |es| && item == Nth(NodesOf(kids), i) && ok && EntriesFit(es, i)
      invariant TreeAll(kids, es) && fields.Valid() && Below(kids) !! BucketParts(fields)
      invariant fields.contents + Flatten(es[i..], prefix, v) == old(fields.contents) + Flatten(es, prefix, v)
      invariant BucketParts(fields) == start + made && fresh(made)
      invariant fresh(gone) && gone !! made && FreesExactly(freed, gone)
      invariant forall o: object {:trigger allocated(o)} {:trigger old(allocated(o))} ::
        allocated(o) ==> old(allocated(o)) || o in made || o in gone
      decreases |kids| - i
    {
      ChildAt(kids, es, i);
      FlattenNext(es, i, prefix, v);
      FitsEntry(es, i);
      assert allocated(Below(kids)) && allocated(gone);
      Assoc(fields.contents, FlattenEntry(es[i], prefix), Flatten(es[i + 1..], prefix, v));
      var after;
      ghost var more, lost;
      ok, after, more, lost := WalkItem(fields, item, prefix, kids, v, i);
      FreesBoth(freed, gone, after, lost);
      NodeParser.UnionAssoc(start, made, more);
      freed, made, gone := freed + after, made + more, gone + lost;
      if !ok {
        return;
      }
      ChildAt(kids, es, i);
      item := item.next;
      i := i + 1;
    }
    FlattenNone(prefix, v);
    assert es[i..] == [];
  }

  // ---------- whole events ----------

  /** The fields of a parsed text. */
  function EventOf(v: Json): seq<Record> {
    EntriesSmaller(Arr([v]));
    Flatten(Entries(Arr([v])), [], Arr([v]))
  }

  lemma {:induction false} RootAlone(sh: Shape, v: Json)
    requires Tree(sh, v) && sh.name == null && sh.node.next == null && sh.node.prev == null
    ensures TreeAll([sh], Entries(Arr([v]))) && NodesOf([sh])[0] == sh.node
  {
    assert TreeEntry(sh, Entry(Unnamed, v));
  }

  /** ee_newEventFromJSON, unless the text of a number would run past its buffer: a text that does not
      parse gives no event; otherwise the event has the fields of the parsed value. What is allocated
      on the way is part of the event or is freed once: the tree and the texts of its numbers. */
  method NewEventFromJSON(str: bytes)
    returns (ok: bool, e: Event?, freed: seq<object>, ghost gone: set<object>)
    requires CString(str) && Outside(str, 0)
    ensures ok <==> (Parse(str).Ok? ==> NumbersFit(Parse(str).value))
    ensures ok ==> (e == null <==> Parse(str).Fail?)
    ensures ok && e != null ==> fresh(e.Parts()) && e.Valid() && e.Contents() == EventOf(Parse(str).value)
    ensures ok && e != null ==> SaysValue(e.Contents(), Parse(str).value)
    ensures ok ==> fresh(gone) && FreesExactly(freed, gone) && (e != null ==> gone !! e.Parts())
    ensures ok ==> forall o: object {:trigger allocated(o)} {:trigger old(allocated(o))} ::
      allocated(o) ==> old(allocated(o)) || o in gone || (e != null && o in e.Parts())
  {
    hide Tree, TreeAll, Separate, AllSay, TextsNulFree, NumbersFit, EventOf, SaysValue, Parse, Below, FreesExactly;
    hide Proper;
    ghost var sh, lost;
    var json, ep, after;
    json, ep, sh, freed := NodeParser.ParseText(str);
    gone, e := Footprint(sh), null;
    if json == null {
      ok := true;
      return;
    }
    ParsedTexts(str);
    ProperTexts(Parse(str).value);
    EventSays(Parse(str).value);
    assert allocated(gone);
    ok, e, freed, lost := EventFromTree(json, sh, Parse(str).value);
    if !ok {
      return;
    }
    NodeLists.BelowOne(sh);
    assert allocated(e.Parts()) && allocated(lost);
    after := Delete(json, [sh]);
    FreesBoth(freed, lost, after, gone);
    freed, gone := freed + after, lost + gone;
  }

  /** The event that is built before the tree is deleted. */
  method EventFromTree(json: Node, ghost sh: Shape, ghost v: Json)
    returns (ok: bool, e: Event, freed: seq<object>, ghost gone: set<object>)
    requires json == sh.node && Tree(sh, v) && TextsNulFree(v)
    requires json.name == null && json.next == null && json.prev == null
    ensures ok <==> NumbersFit(v)
    ensures fresh(e.Parts()) && e.Valid() && (ok ==> e.Contents() == EventOf(v))
    ensures FitsAll([sh]) && NodesOf([sh])[0] == json
    ensures fresh(gone) && gone !! e.Parts() && FreesExactly(freed, gone)
    ensures forall o: object {:trigger allocated(o)} {:trigger old(allocated(o))} ::
      allocated(o) ==> old(allocated(o)) || o in e.Parts() || o in gone
  {
    hide Tree, TreeAll, AllSay, BucketChained, TextsNulFree, NumbersFit, Flatten, Below, Entries, FitsAll, FreesExactly;
    RootHead(sh, v);
    RootAlone(sh, v);
    RootEntries(v);
    assert allocated(Below([sh]));
    e := new Event();
    e.fields := new FieldBucket();
    ghost var made;
    ok, freed, made, gone := ParseAndCallback(e.fields, json, [], [sh], Arr([v]));
    TreesFit([sh], Entries(Arr([v])));
  }

  lemma {:induction false} RootHead(sh: Shape, v: Json)
    requires Tree(sh, v)
    ensures sh.node.name == sh.name
  {}

  lemma {:induction false} RootEntries(v: Json)
    requires TextsNulFree(v)
    ensures TextsNulFree(Arr([v]))
    ensures EntriesFit(Entries(Arr([v])), |Entries(Arr([v]))|) <==> NumbersFit(v)
  {
    hide NumbersFit;
    assert Entries(Arr([v]))[0] == Entry(Unnamed, v);
  }

  // ---------- the fields are the leaves, named by their paths ----------

  /** A scalar and the keys that lead to it. */
  datatype Leaf = Leaf(path: seq<Key>, value: Json)

  /** The scalars of a sibling list reached by path, in document order. */
  function Leaves(es: seq<Entry>, path: seq<Key>, ghost bound: Json): (ls: seq<Leaf>)
    requires forall i :: 0 <= i < |es| ==> es[i].value < bound
    ensures forall i :: 0 <= i < |ls| ==> IsScalar(ls[i].value)
    decreases bound, 0, |es|
  {
    if es == [] then [] else LeavesOf(es[0], path + [es[0].key]) + Leaves(es[1..], path, bound)
  }

  function LeavesOf(e: Entry, path: seq<Key>): (ls: seq<Leaf>)
    ensures forall i :: 0 <= i < |ls| ==> IsScalar(ls[i].value)
    decreases e.value, 1
  {
    EntriesSmaller(e.value);
    if IsScalar(e.value) then [Leaf(path, e.value)] else Leaves(Entries(e.value), path, e.value)
  }

  function KeyName(key: Key): bytes {
    if key.Named? then key.name else [STAR]
  }

  /** The keys joined with dots, an unnamed one as a star. */
  function Dotted(path: seq<Key>): bytes {
    if path == [] then [] else [DOT] + KeyName(path[0]) + Dotted(path[1..])
  }

  /** The name of a path: keys that are unnamed or empty leave no trace before the first other one. */
  function PathName(path: seq<Key>): bytes {
    if path == [] then []
    else if path[0] == Unnamed || path[0] == Named([]) then PathName(path[1..])
    else path[0].name + Dotted(path[1..])
  }

  function LeafField(l: Leaf): Record
    requires IsScalar(l.value)
  {
    Record(PathName(l.path), [ScalarText(l.value)])
  }

  function LeafFields(ls: seq<Leaf>): seq<Record>
    requires forall i :: 0 <= i < |ls| ==> IsScalar(ls[i].value)
  {
    if ls == [] then [] else [LeafField(ls[0])] + LeafFields(ls[1..])
  }

  lemma {:induction false} LeafFieldsConcat(a: seq<Leaf>, b: seq<Leaf>)
    requires forall i :: 0 <= i < |a| ==> IsScalar(a[i].value)
    requires forall i :: 0 <= i < |b| ==> IsScalar(b[i].value)
    ensures forall i :: 0 <= i < |a + b| ==> IsScalar((a + b)[i].value)
    ensures LeafFields(a + b) == LeafFields(a) + LeafFields(b)
  {
    hide LeafField, IsScalar;
    if a == [] {
      assert a + b == b;
    } else {
      LeafFieldsConcat(a[1..], b);
      assert (a + b)[1..] == a[1..] + b && (a + b)[0] == a[0];
      Assoc([LeafField(a[0])], LeafFields(a[1..]), LeafFields(b));
    }
  }

  lemma {:induction false} DottedAppend(path: seq<Key>, key: Key)
    ensures Dotted(path + [key]) == Dotted(path) + [DOT] + KeyName(key)
  {
    if path != [] {
      DottedAppend(path[1..], key);
      assert (path + [key])[1..] == path[1..] + [key];
    } else {
      assert (path + [key])[1..] == [];
    }
  }

  /** One key more is one step of the prefix rule. */
  lemma {:induction false} PathNameAppend(path: seq<Key>, key: Key)
    ensures PathName(path + [key]) == NameUnder(PathName(path), key)
  {
    if path == [] {
      assert (path + [key])[1..] == [];
    } else {
      assert (path + [key])[1..] == path[1..] + [key];
      if path[0] == Unnamed || path[0] == Named([]) {
        PathNameAppend(path[1..], key);
      } else {
        DottedAppend(path[1..], key);
      }
    }
  }

  lemma {:induction false} FlattenIsLeaves(es: seq<Entry>, path: seq<Key>, bound: Json)
    requires forall i :: 0 <= i < |es| ==> es[i].value < bound
    ensures Flatten(es, PathName(path), bound) == LeafFields(Leaves(es, path, bound))
    decreases bound, 0, |es|
  {
    if es == [] {
    } else {
      FlattenEntryIsLeaves(es[0], path);
      FlattenIsLeaves(es[1..], path, bound);
      LeafFieldsConcat(LeavesOf(es[0], path + [es[0].key]), Leaves(es[1..], path, bound));
    }
  }

  lemma {:induction false} FlattenEntryIsLeaves(e: Entry, path: seq<Key>)
    ensures FlattenEntry(e, PathName(path)) == LeafFields(LeavesOf(e, path + [e.key]))
    decreases e.value, 1
  {
    PathNameAppend(path, e.key);
    EntriesSmaller(e.value);
    if IsScalar(e.value) {
      assert FlattenBelow(e, PathName(path)) == [];
    } else {
      FlattenIsLeaves(Entries(e.value), path + [e.key], e.value);
    }
  }

  /** The event of a parsed text has one field for each scalar in it, in document order, named by
      the path of keys that leads there. */
  lemma {:induction false} EventIsLeaves(v: Json)
    ensures EventOf(v) == LeafFields(LeavesOf(Entry(Unnamed, v), [Unnamed]))
  {
    EntriesSmaller(Arr([v]));
    FlattenIsLeaves(Entries(Arr([v])), [], Arr([v]));
    var es := Entries(Arr([v]));
    var ls := LeavesOf(es[0], [Unnamed]);
    assert [] + [es[0].key] == [Unnamed] && es[1..] == [] && ls + [] == ls;
  }

  // ---------- what the fields say ----------

  /** The text of a field for a scalar: one minus for null, the bytes of a string, and for a boolean or a
      number a JSON text of it, the number as the printer writes it. */
  ghost predicate SaysScalar(t: bytes, v: Json)
    requires IsScalar(v)
  {
    match v
    case Null => t == [0x2D]
    case Str(u) => t == u
    case Bool(_) => Outside(t + [NUL], 0) && Parse(t + [NUL]) == Ok(v, |t|)
    case Num(x) => t == FormatNumber(x) && Outside(t + [NUL], 0) && Parse(t + [NUL]) == Ok(Num(Reread(x)), |t|)
  }

  /** The field of that name with that one value. */
  ghost predicate SaysLeaf(rec: Record, l: Leaf)
    requires IsScalar(l.value)
  {
    rec.name == PathName(l.path) && |rec.values| == 1 && SaysScalar(rec.values[0], l.value)
  }

  /** One field for each scalar of the value, in document order. */
  ghost predicate SaysValue(recs: seq<Record>, v: Json) {
    var ls := LeavesOf(Entry(Unnamed, v), [Unnamed]);
    |recs| == |ls| && forall i :: 0 <= i < |ls| ==> SaysLeaf(recs[i], ls[i])
  }

  lemma {:induction false} ScalarSays(v: Json)
    requires IsScalar(v) && Proper(v)
    ensures SaysScalar(ScalarText(v), v)
  {
    hide Parse, Outside, FormatNumber, Reread;
    if v.Bool? || v.Num? {
      PrintParseWhole(v, false);
    }
  }

  predicate Scalars(ls: seq<Leaf>) {
    forall i :: 0 <= i < |ls| ==> IsScalar(ls[i].value)
  }

  ghost predicate AllProper(ls: seq<Leaf>) {
    forall i :: 0 <= i < |ls| ==> Proper(ls[i].value)
  }

  lemma {:induction false} AllProperConcat(a: seq<Leaf>, b: seq<Leaf>)
    requires AllProper(a) && AllProper(b)
    ensures AllProper(a + b)
  {
    hide Proper;
  }

  lemma {:induction false} LeavesProper(es: seq<Entry>, path: seq<Key>, bound: Json)
    requires forall i :: 0 <= i < |es| ==> es[i].value < bound && Proper(es[i].value)
    ensures AllProper(Leaves(es, path, bound))
    decreases bound, 0, |es|
  {
    hide AllProper, Proper;
    if es == [] {
      NoLeaves();
    } else {
      EntryProper(es[0], path + [es[0].key]);
      LeavesProper(es[1..], path, bound);
      AllProperConcat(LeavesOf(es[0], path + [es[0].key]), Leaves(es[1..], path, bound));
    }
  }

  lemma {:induction false} NoLeaves()
    ensures AllProper([])
  {}

  lemma {:induction false} OneLeaf(path: seq<Key>, v: Json)
    requires Proper(v)
    ensures AllProper([Leaf(path, v)])
  {}

  lemma {:induction false} EntriesProper(v: Json)
    requires Proper(v)
    ensures forall i :: 0 <= i < |Entries(v)| ==> Proper(Entries(v)[i].value)
  {}

  lemma {:induction false} EntryProper(e: Entry, path: seq<Key>)
    requires Proper(e.value)
    ensures AllProper(LeavesOf(e, path))
    decreases e.value, 1
  {
    hide AllProper, Proper;
    EntriesSmaller(e.value);
    if IsScalar(e.value) {
      OneLeaf(path, e.value);
    } else {
      EntriesProper(e.value);
      LeavesProper(Entries(e.value), path, e.value);
    }
  }

  lemma {:induction false} LeafFieldsSay(ls: seq<Leaf>)
    requires Scalars(ls) && AllProper(ls)
    ensures |LeafFields(ls)| == |ls| && forall i :: 0 <= i < |ls| ==> SaysLeaf(LeafFields(ls)[i], ls[i])
  {
    hide SaysScalar, ScalarText, Proper, PathName;
    if ls == [] {
    } else {
      ScalarSays(ls[0].value);
      LeafFieldsSay(ls[1..]);
      assert forall i :: 1 <= i < |ls| ==> LeafFields(ls)[i] == LeafFields(ls[1..])[i - 1] && ls[i] == ls[1..][i - 1];
    }
  }

  /** The event of a parsed text says of each scalar in it what it is. */
  lemma {:induction false} EventSays(v: Json)
    requires Proper(v)
    ensures SaysValue(EventOf(v), v)
  {
    hide EventOf, LeavesOf, LeafFields, SaysLeaf, Proper, AllProper;
    EventIsLeaves(v);
    EntryProper(Entry(Unnamed, v), [Unnamed]);
    LeafFieldsSay(LeavesOf(Entry(Unnamed, v), [Unnamed]));
  }
}
