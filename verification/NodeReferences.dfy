/** cJSON_AddItemReferenceToArray, by what is owned afterwards and by what a reader sees. */
module NodeReferences {
  import opened JsonTree
  import opened Nodes
  import opened NodeTrees
  import opened NodeLists

  // ---------- lists that meet ----------

  lemma {:induction false} SameUpTo(a: seq<Node>, b: seq<Node>, k: nat)
    requires Linked(a) && Linked(b) && Nth(a, 0) == Nth(b, 0) && k < |a|
    ensures k < |b| && a[k] == b[k]
  {
    if k == 0 {
    } else {
      SameUpTo(a, b, k - 1);
      assert a[k - 1].next == Nth(a, k) && b[k - 1].next == Nth(b, k);
    }
  }

  /** Two linked lists with the same first node are the same. */
  lemma {:induction false} SameList(a: seq<Node>, b: seq<Node>)
    requires Linked(a) && Linked(b) && Nth(a, 0) == Nth(b, 0)
    ensures a == b
  {
    if a != [] {
      SameUpTo(a, b, |a| - 1);
    }
    if b != [] {
      SameUpTo(b, a, |b| - 1);
    }
    forall k | 0 <= k < |a|
      ensures a[k] == b[k]
    {
      SameUpTo(a, b, k);
    }
  }

  /** Two linked lists with a node in common are the same. */
  lemma {:induction false} ListsMeet(a: seq<Node>, b: seq<Node>, i: nat, j: nat)
    requires Linked(a) && Linked(b) && i < |a| && j < |b| && a[i] == b[j]
    ensures a == b
    decreases i
  {
    assert a[i].prev == Nth(a, i - 1) && b[j].prev == Nth(b, j - 1);
    if i == 0 {
      SameList(a, b);
    } else {
      ListsMeet(a, b, i - 1, j - 1);
    }
  }

  // ---------- what is read below a node is smaller than it ----------

  function Size(sh: Shape): nat
    decreases sh, 0
  {
    1 + SizeAll(sh.kids)
  }

  function SizeAll(kids: seq<Shape>): nat
    decreases kids
  {
    if kids == [] then 0 else Size(kids[0]) + SizeAll(kids[1..])
  }

  lemma {:induction false} SizeAt(kids: seq<Shape>, i: nat)
    requires i < |kids|
    ensures Size(kids[i]) <= SizeAll(kids)
  {
    if i == 0 {
    } else {
      SizeAt(kids[1..], i - 1);
    }
  }

  /** What the reader of a list sees of one item. */
  lemma {:induction false} ItemReads(kids: seq<Shape>, es: seq<Entry>, byName: bool, i: nat)
    requires ReadsAll(kids, es, byName) && i < |kids|
    ensures i < |es| && Reads(kids[i], es[i].value) && ReadsEntry(kids[i], es[i], byName)
  {
    assert ReadsEntry(kids[i], es[i], byName);
  }

  lemma {:induction false} ListLinked(kids: seq<Shape>, es: seq<Entry>, byName: bool)
    requires ReadsAll(kids, es, byName)
    ensures Linked(NodesOf(kids)) && |kids| == |es|
  {}

  lemma {:induction false} KidsRead(sh: Shape, v: Json)
    requires Reads(sh, v)
    ensures ReadsAll(sh.kids, Entries(v), v.Obj?) && sh.node.child == Nth(NodesOf(sh.kids), 0)
  {}

  /** Whoever reads a node sees equally much. */
  lemma {:induction false} SameSize(a: Shape, v: Json, b: Shape, w: Json)
    requires Reads(a, v) && Reads(b, w) && a.node == b.node
    ensures Size(a) == Size(b)
    decreases a, 1
  {
    hide Reads, ReadsAll, Linked;
    KidsRead(a, v);
    KidsRead(b, w);
    ListLinked(a.kids, Entries(v), v.Obj?);
    ListLinked(b.kids, Entries(w), w.Obj?);
    SameList(NodesOf(a.kids), NodesOf(b.kids));
    SameSizes(a.kids, Entries(v), v.Obj?, b.kids, Entries(w), w.Obj?, 0);
    assert a.kids[0..] == a.kids && b.kids[0..] == b.kids;
  }

  lemma {:induction false} SameSizes(a: seq<Shape>, es: seq<Entry>, byName: bool,
                                     b: seq<Shape>, es': seq<Entry>, byName': bool, i: nat)
    requires ReadsAll(a, es, byName) && ReadsAll(b, es', byName') && NodesOf(a) == NodesOf(b) && i <= |a|
    ensures i <= |b| && SizeAll(a[i..]) == SizeAll(b[i..])
    decreases a, 0, |a| - i
  {
    hide Reads, ReadsAll;
    assert |NodesOf(a)| == |NodesOf(b)|;
    if i == |a| {
    } else {
      ItemReads(a, es, byName, i);
      ItemReads(b, es', byName', i);
      assert NodesOf(a)[i] == NodesOf(b)[i];
      SameSize(a[i], es[i].value, b[i], es'[i].value);
      SameSizes(a, es, byName, b, es', byName', i + 1);
      assert a[i..][1..] == a[i + 1..] && b[i..][1..] == b[i + 1..];
    }
  }

  /** A node is not read below a node that is smaller. */
  lemma {:induction false} NotInside(sh: Shape, v: Json, top: Shape, w: Json)
    requires Reads(sh, v) && Reads(top, w) && Size(sh) < Size(top)
    ensures top.node !in Footprint(sh)
    decreases sh
  {
    hide Reads, ReadsAll;
    if sh.node == top.node {
      SameSize(sh, v, top, w);
    }
    KidsRead(sh, v);
    forall i | 0 <= i < |sh.kids|
      ensures top.node !in Footprint(sh.kids[i])
    {
      ItemReads(sh.kids, Entries(v), v.Obj?, i);
      SizeAt(sh.kids, i);
      NotInside(sh.kids[i], Entries(v)[i].value, top, w);
    }
  }

  lemma {:induction false} MeetingSizes(a: seq<Shape>, es: seq<Entry>, byName: bool,
                                        b: seq<Shape>, es': seq<Entry>, byName': bool, i: nat, j: nat)
    requires ReadsAll(a, es, byName) && ReadsAll(b, es', byName')
    requires i < |a| && j < |b| && a[i].node == b[j].node
    ensures SizeAll(a) == SizeAll(b)
  {
    hide Reads, ReadsAll, Linked;
    ListLinked(a, es, byName);
    ListLinked(b, es', byName');
    ListsMeet(NodesOf(a), NodesOf(b), i, j);
    assert a[0..] == a && b[0..] == b;
    SameSizes(a, es, byName, b, es', byName', 0);
  }

  /** The nodes of a list are not read below one of its items. */
  lemma {:induction false} NotListed(list: seq<Shape>, es: seq<Entry>, byName: bool,
                                     kids: seq<Shape>, es': seq<Entry>, byName': bool, l: nat)
    requires ReadsAll(list, es, byName) && ReadsAll(kids, es', byName') && l < |kids|
    requires SizeAll(list) < SizeAll(kids)
    ensures kids[l].node !in Below(list)
    decreases list
  {
    hide Reads, ReadsAll, Linked;
    forall i | 0 <= i < |list|
      ensures kids[l].node !in Footprint(list[i])
    {
      ItemReads(list, es, byName, i);
      if list[i].node == kids[l].node {
        MeetingSizes(list, es, byName, kids, es', byName', i, l);
        assert false;
      }
      KidsRead(list[i], es[i].value);
      SizeAt(list, i);
      NotListed(list[i].kids, Entries(es[i].value), es[i].value.Obj?, kids, es', byName', l);
    }
  }

  /** Nothing that is read of a container's items changes if the container and the last link do. */
  lemma {:induction false} ItemsApart(seen: Shape, v: Json, i: nat, l: nat)
    requires Reads(seen, v) && i < |seen.kids| && l < |seen.kids|
    ensures seen.node !in Footprint(seen.kids[i])
    ensures seen.kids[l].node !in Below(seen.kids[i].kids)
  {
    hide Reads, ReadsAll;
    KidsRead(seen, v);
    var kids, es := seen.kids, Entries(v);
    ItemReads(kids, es, v.Obj?, i);
    SizeAt(kids, i);
    NotInside(kids[i], es[i].value, seen, v);
    KidsRead(kids[i], es[i].value);
    NotListed(kids[i].kids, Entries(es[i].value), es[i].value.Obj?, kids, es, v.Obj?, l);
  }

  // ---------- adding a reference ----------

  /** The item is read apart from the container and its last child: adding to the container does not
      change what it reads as. */
  ghost predicate ReadsApart(parent: Node, last: Node?, told: Shape) {
    parent !in Footprint(told) && (last != null ==> last !in Below(told.kids))
  }

  lemma {:induction false} SameNodes(parent: Node, nodes: seq<Node>, seen: Shape, v: Json)
    requires Children(parent, nodes) && Reads(seen, v) && seen.node == parent
    ensures NodesOf(seen.kids) == nodes
  {
    KidsRead(seen, v);
    ListLinked(seen.kids, Entries(v), v.Obj?);
    SameList(NodesOf(seen.kids), nodes);
  }

  /** The container with one more child reads as the array with one more item. */
  lemma {:induction false} ReadsMore(seen: Shape, items: seq<Json>, sh: Shape, v: Json)
    requires seen.node.kind == ArrayKind && seen.node.name == seen.name && seen.node.valuestring == seen.text
    requires |seen.kids| == |items| && Reads(sh, v)
    requires forall i :: 0 <= i < |items| ==> Reads(seen.kids[i], items[i])
    requires Children(seen.node, NodesOf(seen.kids) + [sh.node])
    ensures Reads(seen.(kids := seen.kids + [sh]), Arr(items + [v]))
  {
    var kids, es := seen.kids + [sh], Entries(Arr(items + [v]));
    assert NodesOf(kids) == NodesOf(seen.kids) + [sh.node];
    forall i | 0 <= i < |kids|
      ensures ReadsEntry(kids[i], es[i], false)
    {}
  }

  lemma {:induction false} ArrayHead(seen: Shape, items: seq<Json>)
    requires Reads(seen, Arr(items))
    ensures seen.node.kind == ArrayKind && seen.node.name == seen.name && seen.node.valuestring == seen.text
    ensures |seen.kids| == |items| && forall i :: 0 <= i < |items| ==> Reads(seen.kids[i], items[i])
  {
    forall i | 0 <= i < |items|
      ensures Reads(seen.kids[i], items[i])
    {
      ItemReads(seen.kids, Entries(Arr(items)), false, i);
    }
  }

  lemma {:induction false} PartsOf(sh: Shape)
    ensures sh.node in Footprint(sh) && Below(sh.kids) <= Footprint(sh) && Some(sh.text) <= Footprint(sh)
  {}

  lemma {:induction false} OwnsChildren(parent: Node, kids: seq<Shape>)
    requires Owns(parent, kids)
    ensures Children(parent, NodesOf(kids))
  {}

  /** The shape is read as the value, apart from the container. */
  ghost predicate ReadApart(parent: Node, last: Node?, sh: Shape, v: Json)
    reads sh.node`name, sh.node`valuestring, sh.node`child, sh.node`kind, sh.node`valueint, sh.node`valuedouble
    reads Some(sh.text), Below(sh.kids)
  {
    Reads(sh, v) && ReadsApart(parent, last, sh)
  }

  /** The new node is a reference to the item, and the array owns nothing of the item. What was read apart
      from the array reads as before. */
  method AppendReference(
      parent: Node, item: Node, ghost kids: seq<Shape>, ghost shapes: seq<Shape>, ghost vs: seq<Json>)
    returns (ref: Node)
    requires Owns(parent, kids) && |shapes| == |vs|
    modifies parent`child, Only(Nth(NodesOf(kids), |kids| - 1))`next
    ensures fresh(ref) && ref.isReference && ref.name == null && Owns(parent, kids + [Shape(ref, null, null, [])])
    ensures ref.child == old(item.child) && ref.kind == item.kind && ref.valuestring == item.valuestring
    ensures ref.valueint == item.valueint && ref.valuedouble == item.valuedouble
    ensures var last := Nth(NodesOf(kids), |kids| - 1);
      forall i :: 0 <= i < |shapes| && old(ReadApart(parent, last, shapes[i], vs[i])) ==> Reads(shapes[i], vs[i])
  {
    hide Owns, Reads, Linked, Fits;
    assert allocated(Below(kids));
    ghost var last := Nth(NodesOf(kids), |kids| - 1);
    ref := CreateReference(item);
    AddOwned(parent, ref, kids, Shape(ref, null, null, []));
    forall i | 0 <= i < |shapes| && old(ReadApart(parent, last, shapes[i], vs[i]))
      ensures Reads(shapes[i], vs[i])
    {
      assert old(Reads(shapes[i], vs[i]));
      assert old(allocated(Below(shapes[i].kids)));
      assert shapes[i].node != parent && last !in Below(shapes[i].kids) && parent !in Below(shapes[i].kids);
    }
  }

  /** The container as an array whose items are read apart from it. */
  ghost predicate ArrayRead(parent: Node, nodes: seq<Node>, seen: Shape, items: seq<Json>)
    reads parent, Footprint(seen)
  {
    PartsBelow(seen.kids);
    && seen.node == parent && NodesOf(seen.kids) == nodes && |seen.kids| == |items|
    && parent.kind == ArrayKind && parent.name == seen.name && parent.valuestring == seen.text
    && forall i :: 0 <= i < |items| ==> ReadApart(parent, Nth(nodes, |nodes| - 1), seen.kids[i], items[i])
  }

  lemma {:induction false} BeforeAdding(parent: Node, nodes: seq<Node>, seen: Shape, items: seq<Json>)
    requires Children(parent, nodes) && Reads(seen, Arr(items)) && seen.node == parent
    ensures ArrayRead(parent, nodes, seen, items)
  {
    hide Reads, Linked;
    SameNodes(parent, nodes, seen, Arr(items));
    ArrayHead(seen, items);
    forall i | 0 <= i < |items|
      ensures ReadsApart(parent, Nth(nodes, |nodes| - 1), seen.kids[i])
    {
      ItemsApart(seen, Arr(items), i, |items| - 1);
    }
  }

  /** cJSON_AddItemReferenceToArray: whoever read the array as some items and the item as some value, apart
      from the array, reads the array as those items and that value now, and the item as before. */
  method AddItemReferenceToArray(parent: Node, item: Node, ghost kids: seq<Shape>, ghost seen: Shape,
                                 ghost items: seq<Json>, ghost told: Shape, ghost v: Json)
    returns (ref: Node)
    requires Owns(parent, kids) && seen.node == parent && told.node == item
    modifies parent`child, Only(Nth(NodesOf(kids), |kids| - 1))`next
    ensures fresh(ref) && ref.isReference && Owns(parent, kids + [Shape(ref, null, null, [])])
    ensures ref.child == old(item.child) && ref.kind == item.kind && ref.valuestring == item.valuestring
    ensures ref.valueint == item.valueint && ref.valuedouble == item.valuedouble
    ensures old(Reads(seen, Arr(items)) && Reads(told, v)) && ReadsApart(parent, Nth(NodesOf(kids), |kids| - 1), told)
      ==> Reads(seen.(kids := seen.kids + [Shape(ref, null, told.text, told.kids)]), Arr(items + [v])) && Reads(told, v)
  {
    hide Reads, Owns, Linked, Footprint;
    ghost var nodes := NodesOf(kids);
    ghost var readable :=
      Reads(seen, Arr(items)) && Reads(told, v) && ReadsApart(parent, Nth(nodes, |nodes| - 1), told);
    ghost var shapes, vs := [], [];
    OwnsChildren(parent, kids);
    if readable {
      BeforeAdding(parent, nodes, seen, items);
      shapes, vs := seen.kids + [told], items + [v];
      assert told.node != parent by {
        PartsOf(told);
      }
    }
    ref := AppendReference(parent, item, kids, shapes, vs);
    OwnsChildren(parent, kids + [Shape(ref, null, null, [])]);
    AppendedKids(kids, Shape(ref, null, null, []));
    if readable {
      assert shapes[|items|] == told && vs[|items|] == v;
      assert forall i :: 0 <= i < |items| ==> shapes[i] == seen.kids[i] && vs[i] == items[i];
      ReferenceReads(ref, told, v);
      ReadsMore(seen, items, Shape(ref, null, told.text, told.kids), v);
    }
  }
}
