/** Which JSON value a tree of cJSON structs stands for. */
module NodeTrees {
  import opened JsonStringCode
  import opened Reals
  import opened NumberFormat
  import opened JsonTree
  import opened Nodes

  /** An item of a container: a struct has the same fields whether it has a name or not. */
  datatype Entry = Entry(key: Key, value: Json)

  function Entries(v: Json): (es: seq<Entry>)
    ensures v.Arr? ==> |es| == |v.items| && forall i :: 0 <= i < |es| ==> es[i] == Entry(Unnamed, v.items[i])
    ensures v.Obj? ==> |es| == |v.members|
    ensures v.Obj? ==> forall i :: 0 <= i < |es| ==> es[i] == Entry(v.members[i].key, v.members[i].value)
  {
    match v
    case Arr(items) => seq(|items|, i requires 0 <= i < |items| => Entry(Unnamed, items[i]))
    case Obj(members) =>
      seq(|members|, i requires 0 <= i < |members| => Entry(members[i].key, members[i].value))
    case _ => []
  }

  function ItemEntries(items: seq<Json>): seq<Entry> {
    Entries(Arr(items))
  }

  function MemberEntries(members: seq<Member>): seq<Entry> {
    Entries(Obj(members))
  }

  function KindOf(v: Json): Kind {
    match v
    case Null => NullKind
    case Bool(b) => if b then TrueKind else FalseKind
    case Num(_) => NumberKind
    case Str(_) => StringKind
    case Arr(_) => ArrayKind
    case Obj(_) => ObjectKind
  }

  /** The item's double is x, and its int, where the conversion is defined, what x converts to. */
  ghost predicate HasNumber(item: Node, x: real)
    reads item`valueint, item`valuedouble
  {
    item.valuedouble == x && (FitsInt(Trunc(x)) ==> item.valueint == Trunc(x))
  }

  /** The node itself, leaving out its children, as the parser leaves it: true has a one in its int. */
  ghost predicate TreeHead(sh: Shape, v: Json)
    reads sh.node`name, sh.node`isReference, sh.node`valuestring, sh.node`child, sh.node`kind
    reads sh.node`valueint, sh.node`valuedouble, Some(sh.text)
  {
    && FitsHead(sh) && !sh.node.isReference && sh.node.kind == KindOf(v)
    && (v.Num? ==> HasNumber(sh.node, v.value))
    && (v == Bool(true) ==> sh.node.valueint == 1)
    && (if v.Str? then sh.text != null && Holds(sh.text, v.text) else sh.text == null)
  }

  ghost predicate HasKey(sh: Shape, key: Key)
    reads Some(sh.name)
  {
    if key.Named? then sh.name != null && Holds(sh.name, key.name) else sh.name == null
  }

  /** The tree stands for the value; references do not occur in it. */
  ghost predicate Tree(sh: Shape, v: Json)
    reads sh.node`name, sh.node`isReference, sh.node`valuestring, sh.node`child, sh.node`kind
    reads sh.node`valueint, sh.node`valuedouble, Some(sh.text), Below(sh.kids)
    decreases sh, 0
  {
    TreeHead(sh, v) && TreeAll(sh.kids, Entries(v))
  }

  /** The key and the value of one item. */
  ghost predicate TreeEntry(sh: Shape, e: Entry)
    reads sh.node`name, sh.node`isReference, sh.node`valuestring, sh.node`child, sh.node`kind
    reads sh.node`valueint, sh.node`valuedouble, Some(sh.name), Some(sh.text), Below(sh.kids)
    decreases sh, 1
  {
    HasKey(sh, e.key) && Tree(sh, e.value)
  }

  ghost predicate TreeAll(kids: seq<Shape>, es: seq<Entry>)
    reads Below(kids)
    decreases kids
  {
    NodesBelow(kids);
    PartsBelow(kids);
    && |kids| == |es| && Linked(NodesOf(kids))
    && forall i :: 0 <= i < |kids| ==> TreeEntry(kids[i], es[i])
  }

  lemma {:induction false} TreeFits(sh: Shape, v: Json)
    requires Tree(sh, v)
    ensures Fits(sh)
    decreases sh
  {
    TreesFit(sh.kids, Entries(v));
  }

  lemma {:induction false} TreesFit(kids: seq<Shape>, es: seq<Entry>)
    requires TreeAll(kids, es)
    ensures FitsAll(kids)
    decreases kids
  {
    forall i | 0 <= i < |kids|
      ensures Fits(kids[i])
    {
      assert TreeEntry(kids[i], es[i]);
      TreeFits(kids[i], es[i].value);
    }
  }

  /** What the reader of a linked tree needs of one child. */
  lemma {:induction false} ChildAt(kids: seq<Shape>, es: seq<Entry>, i: nat)
    requires TreeAll(kids, es) && i < |kids|
    ensures i < |es| && HasKey(kids[i], es[i].key) && Tree(kids[i], es[i].value)
    ensures kids[i].node.name == kids[i].name
    ensures NodesOf(kids)[i] == kids[i].node && kids[i].node.next == Nth(NodesOf(kids), i + 1)
  {
    assert TreeEntry(kids[i], es[i]);
    assert Tree(kids[i], es[i].value);
  }

  /** The fields of a struct that stands for a value, by its kind. */
  lemma {:induction false} TreeParts(sh: Shape, v: Json)
    requires Tree(sh, v)
    ensures sh.node.kind == KindOf(v)
    ensures v.Num? ==> HasNumber(sh.node, v.value)
    ensures v.Str? ==> sh.text != null && Holds(sh.text, v.text) && sh.node.valuestring == sh.text
    ensures sh.node.child == Nth(NodesOf(sh.kids), 0)
    ensures v.Arr? ==> TreeAll(sh.kids, ItemEntries(v.items))
    ensures v.Obj? ==> TreeAll(sh.kids, MemberEntries(v.members))
  {}

  // ---------- what a reader sees ----------

  /** The node itself as a reader sees it, who follows its pointers whoever owns what they lead to. */
  ghost predicate ReadsHead(sh: Shape, v: Json)
    reads sh.node`name, sh.node`valuestring, sh.node`child, sh.node`kind, sh.node`valueint, sh.node`valuedouble
    reads Some(sh.text)
  {
    && sh.node.name == sh.name && sh.node.valuestring == sh.text && sh.node.child == Nth(NodesOf(sh.kids), 0)
    && sh.node.kind == KindOf(v) && (v.Num? ==> HasNumber(sh.node, v.value))
    && (v.Str? ==> sh.text != null && Holds(sh.text, v.text))
  }

  /** The item reads as the value: reference items count like others, and the names of array items do
      not matter. The shape lists what is reached, which may be shared and owned by others. */
  ghost predicate Reads(sh: Shape, v: Json)
    reads sh.node`name, sh.node`valuestring, sh.node`child, sh.node`kind, sh.node`valueint, sh.node`valuedouble
    reads Some(sh.text), Below(sh.kids)
    decreases sh, 0
  {
    ReadsHead(sh, v) && ReadsAll(sh.kids, Entries(v), v.Obj?)
  }

  ghost predicate ReadsEntry(sh: Shape, e: Entry, byName: bool)
    reads sh.node`name, sh.node`valuestring, sh.node`child, sh.node`kind, sh.node`valueint, sh.node`valuedouble
    reads Some(sh.name), Some(sh.text), Below(sh.kids)
    decreases sh, 1
  {
    (byName ==> HasKey(sh, e.key)) && Reads(sh, e.value)
  }

  ghost predicate ReadsAll(kids: seq<Shape>, es: seq<Entry>, byName: bool)
    reads Below(kids)
    decreases kids
  {
    NodesBelow(kids);
    PartsBelow(kids);
    && |kids| == |es| && Linked(NodesOf(kids))
    && forall i :: 0 <= i < |kids| ==> ReadsEntry(kids[i], es[i], byName)
  }

  /** A tree reads as the value it stands for. */
  lemma {:induction false} TreeReads(sh: Shape, v: Json)
    requires Tree(sh, v)
    ensures Reads(sh, v)
    decreases sh
  {
    forall i | 0 <= i < |sh.kids|
      ensures ReadsEntry(sh.kids[i], Entries(v)[i], v.Obj?)
    {
      assert TreeEntry(sh.kids[i], Entries(v)[i]);
      TreeReads(sh.kids[i], Entries(v)[i].value);
    }
  }

  /** A reference item, a copy of the struct but for its name and links, reads as what the item reads
      as. */
  lemma {:induction false} ReferenceReads(ref: Node, sh: Shape, v: Json)
    requires Reads(sh, v)
    requires ref.child == sh.node.child && ref.kind == sh.node.kind && ref.valuestring == sh.node.valuestring
    requires ref.valueint == sh.node.valueint && ref.valuedouble == sh.node.valuedouble
    ensures Reads(Shape(ref, ref.name, sh.text, sh.kids), v)
  {}
}
