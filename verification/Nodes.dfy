/** The cJSON struct, its sibling lists, and who owns what in a tree of them. */
module Nodes {
  import opened Bytes

  /** The type field without the reference flag; a zeroed struct is a False item. */
  datatype Kind = FalseKind | TrueKind | NullKind | NumberKind | StringKind | ArrayKind | ObjectKind

  class Node {
    var next: Node?
    var prev: Node?
    var child: Node?
    var kind: Kind
    var isReference: bool
    var valuestring: array?<byte>
    var valueint: int
    var valuedouble: real
    var name: array?<byte>

    /** cJSON_New_Item: a zeroed struct. */
    constructor ()
      ensures next == null && prev == null && child == null && valuestring == null && name == null
      ensures kind == FalseKind && !isReference && valueint == 0 && valuedouble == 0.0
      ensures forall o: object {:trigger allocated(o)} {:trigger old(allocated(o))} ::
        allocated(o) ==> old(allocated(o)) || o == this
    {
      next, prev, child, valuestring, name := null, null, null, null, null;
      kind, isReference, valueint, valuedouble := FalseKind, false, 0, 0.0;
    }
  }

  // ---------- sibling lists ----------

  /** The node at i, or none past either end. */
  function Nth(nodes: seq<Node>, i: int): Node? {
    if 0 <= i < |nodes| then nodes[i] else null
  }

  /** Consecutive nodes point at each other, the first has no prev and the last no next. */
  ghost predicate Linked(nodes: seq<Node>)
    reads nodes`prev, nodes`next
  {
    forall i {:trigger nodes[i].prev} {:trigger nodes[i].next} :: 0 <= i < |nodes| ==>
      nodes[i].prev == Nth(nodes, i - 1) && nodes[i].next == Nth(nodes, i + 1)
  }

  /** In a linked list no node occurs twice. */
  lemma {:induction false} LinkedDistinct(nodes: seq<Node>, i: nat, j: nat)
    requires Linked(nodes) && i < j < |nodes|
    ensures nodes[i] != nodes[j]
    decreases i
  {
    if i == 0 {
    } else {
      LinkedDistinct(nodes, i - 1, j - 1);
    }
    assert nodes[j].prev == Nth(nodes, j - 1) && nodes[i].prev == Nth(nodes, i - 1);
  }

  // ---------- ownership ----------

  /** What a node owns: its two strings and the nodes of its child list. A reference item owns its
      name only. */
  datatype Shape = Shape(node: Node, name: array?<byte>, text: array?<byte>, kids: seq<Shape>)

  ghost function Some(a: array?<byte>): set<object> {
    if a == null then {} else {a}
  }

  ghost function Footprint(sh: Shape): set<object> {
    {sh.node} + Some(sh.name) + Some(sh.text) + Below(sh.kids)
  }

  ghost function Below(kids: seq<Shape>): set<object> {
    set i, o | 0 <= i < |kids| && o in Footprint(kids[i]) :: o
  }

  ghost function NodesOf(kids: seq<Shape>): (nodes: seq<Node>)
    ensures |nodes| == |kids| && forall i :: 0 <= i < |kids| ==> nodes[i] == kids[i].node
  {
    seq(|kids|, i requires 0 <= i < |kids| => kids[i].node)
  }

  /** No two parts of a tree are the same object. */
  ghost predicate Separate(sh: Shape) {
    && sh.node !in Below(sh.kids)
    && Some(sh.name) !! Some(sh.text)
    && Some(sh.name) + Some(sh.text) !! Below(sh.kids)
    && SeparateAll(sh.kids)
  }

  ghost predicate SeparateAll(kids: seq<Shape>) {
    && (forall i :: 0 <= i < |kids| ==> Separate(kids[i]))
    && (forall i, j {:trigger Footprint(kids[i]), Footprint(kids[j])} ::
          0 <= i < j < |kids| ==> Footprint(kids[i]) !! Footprint(kids[j]))
  }

  lemma {:induction false} NodesBelow(kids: seq<Shape>)
    ensures forall n :: n in NodesOf(kids) ==> n in Below(kids)
  {
    forall n | n in NodesOf(kids)
      ensures n in Below(kids)
    {
      var i :| 0 <= i < |kids| && n == NodesOf(kids)[i];
      assert n in Footprint(kids[i]);
    }
  }

  lemma {:induction false} PartsBelow(kids: seq<Shape>)
    ensures forall i :: 0 <= i < |kids| ==> Footprint(kids[i]) <= Below(kids)
  {}

  /** The fields of the node itself agree with the shape. */
  ghost predicate FitsHead(sh: Shape)
    reads sh.node`name, sh.node`isReference, sh.node`valuestring, sh.node`child
  {
    && sh.node.name == sh.name
    && (if sh.node.isReference then sh.text == null && sh.kids == []
        else sh.node.valuestring == sh.text && sh.node.child == Nth(NodesOf(sh.kids), 0))
  }

  /** The fields of the nodes agree with the shape. */
  ghost predicate Fits(sh: Shape)
    reads sh.node`name, sh.node`isReference, sh.node`valuestring, sh.node`child, Below(sh.kids)
    decreases sh
  {
    FitsHead(sh) && FitsAll(sh.kids)
  }

  ghost predicate FitsAll(kids: seq<Shape>)
    reads Below(kids)
    decreases kids
  {
    NodesBelow(kids);
    PartsBelow(kids);
    && Linked(NodesOf(kids))
    && forall i :: 0 <= i < |kids| ==> Fits(kids[i])
  }

  lemma {:induction false} FitsAt(kids: seq<Shape>, i: nat)
    requires FitsAll(kids) && i < |kids|
    ensures Fits(kids[i])
    ensures SeparateAll(kids) ==> Separate(kids[i])
    ensures kids[i].node.next == Nth(NodesOf(kids), i + 1)
  {
    assert NodesOf(kids)[i] == kids[i].node;
  }

  // ---------- cJSON_Delete ----------

  /** freed lists every object of owned once, and no other. */
  ghost predicate FreesExactly(freed: seq<object>, owned: set<object>) {
    && (forall i, j :: 0 <= i < j < |freed| ==> freed[i] != freed[j])
    && (set o | o in freed) == owned
  }

  lemma {:induction false} FreesNothing()
    ensures FreesExactly([], {})
  {}

  lemma {:induction false} FreesBoth(a: seq<object>, x: set<object>, b: seq<object>, y: set<object>)
    requires FreesExactly(a, x) && FreesExactly(b, y) && x !! y
    ensures FreesExactly(a + b, x + y)
  {
    forall i, j | 0 <= i < j < |a + b|
      ensures (a + b)[i] != (a + b)[j]
    {
      if i < |a| <= j {
        assert a[i] in x && b[j - |a|] in y;
      }
    }
  }

  lemma {:induction false} BelowNext(list: seq<Shape>, i: nat)
    requires i < |list|
    ensures Below(list[..i + 1]) == Below(list[..i]) + Footprint(list[i])
    ensures SeparateAll(list) ==> Below(list[..i]) !! Footprint(list[i])
  {
    var a, b := list[..i + 1], list[..i];
    forall o | o in Below(a)
      ensures o in Below(b) + Footprint(list[i])
    {
      var k :| 0 <= k < |a| && o in Footprint(a[k]);
      if k < i {
        assert b[k] == a[k];
      }
    }
    forall o | o in Below(b)
      ensures o in Below(a)
    {
      var k :| 0 <= k < |b| && o in Footprint(b[k]);
      assert a[k] == b[k];
    }
    assert a[i] == list[i];
  }

  lemma {:induction false} FreesNext(freed: seq<object>, list: seq<Shape>, i: nat, mine: seq<object>)
    requires i < |list| && SeparateAll(list)
    requires FreesExactly(freed, Below(list[..i])) && FreesExactly(mine, Footprint(list[i]))
    ensures FreesExactly(freed + mine, Below(list[..i + 1]))
  {
    BelowNext(list, i);
    FreesBoth(freed, Below(list[..i]), mine, Footprint(list[i]));
  }

  /** Frees a sibling list and everything it owns. What is passed to free() is recorded in order:
      each owned object exactly once, and nothing else. */
  method Delete(c: Node?, ghost list: seq<Shape>) returns (freed: seq<object>)
    requires c == Nth(NodesOf(list), 0) && SeparateAll(list) && FitsAll(list)
    ensures FreesExactly(freed, Below(list))
    ensures forall o: object {:trigger allocated(o)} {:trigger old(allocated(o))} :: allocated(o) ==> old(allocated(o))
    decreases list
  {
    freed := [];
    var c := c;
    ghost var i := 0;
    while c != null
      invariant 0 <= i <= |list|
      invariant c == Nth(NodesOf(list), i)
      invariant FitsAll(list)
      invariant FreesExactly(freed, Below(list[..i]))
      invariant forall o: object {:trigger allocated(o)} {:trigger old(allocated(o))} ::
        allocated(o) ==> old(allocated(o))
      decreases |list| - i
    {
      var next := c.next;
      FitsAt(list, i);
      assert allocated(Below(list));
      var mine := DeleteItem(c, list[i]);
      FreesNext(freed, list, i, mine);
      freed := freed + mine;
      c := next;
      i := i + 1;
    }
    assert list[..i] == list;
  }

  /** The loop body of cJSON_Delete: the children, the strings, the node. */
  method DeleteItem(c: Node, ghost sh: Shape) returns (freed: seq<object>)
    requires c == sh.node && Separate(sh) && Fits(sh)
    ensures FreesExactly(freed, Footprint(sh))
    ensures forall o: object {:trigger allocated(o)} {:trigger old(allocated(o))} :: allocated(o) ==> old(allocated(o))
    decreases sh
  {
    freed := [];
    if !c.isReference && c.child != null {
      freed := Delete(c.child, sh.kids);
    }
    assert FreesExactly(freed, Below(sh.kids));
    if !c.isReference && c.valuestring != null {
      FreesBoth(freed, Below(sh.kids), [c.valuestring], {c.valuestring});
      freed := freed + [c.valuestring];
    }
    assert FreesExactly(freed, Below(sh.kids) + Some(sh.text));
    if c.name != null {
      FreesBoth(freed, Below(sh.kids) + Some(sh.text), [c.name], {c.name});
      freed := freed + [c.name];
    }
    assert FreesExactly(freed, Below(sh.kids) + Some(sh.text) + Some(sh.name));
    FreesBoth(freed, Below(sh.kids) + Some(sh.text) + Some(sh.name), [c], {c});
    freed := freed + [c];
  }
}
