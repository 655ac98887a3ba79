/** Events: a bucket of fields that only grows at its tail. */
module Events {
  import opened Bytes
  import opened Fields

  /** What a field says: its name and its values. */
  datatype Record = Record(name: bytes, values: seq<bytes>)

  class BucketNode {
    var field: Field
    var next: BucketNode?

    constructor (f: Field)
      ensures field == f && next == null
      ensures forall o: object {:trigger allocated(o)} {:trigger old(allocated(o))} ::
        allocated(o) ==> old(allocated(o)) || o == this
    {
      field, next := f, null;
    }
  }

  function NthBucketNode(nodes: seq<BucketNode>, i: int): BucketNode? {
    if 0 <= i < |nodes| then nodes[i] else null
  }

  ghost predicate BucketChained(nodes: seq<BucketNode>)
    reads nodes`next
  {
    forall i {:trigger nodes[i].next} :: 0 <= i < |nodes| ==> nodes[i].next == NthBucketNode(nodes, i + 1)
  }

  /** The parts of a field. */
  ghost function Own(f: Field): set<object>
    reads f`nodes
  {
    var list: set<object> := set n | n in f.nodes;
    list + {f}
  }

  /** The field says what the record says, and all its parts are in s. */
  ghost predicate Says(f: Field, rec: Record, s: set<object>)
    reads s
  {
    && f in s && (forall n :: n in f.nodes ==> n in s)
    && f.Valid() && f.name == Some(rec.name) && f.Values() == rec.values
  }

  ghost predicate AllSay(nodes: seq<BucketNode>, recs: seq<Record>, s: set<object>)
    reads nodes`field, s
  {
    |nodes| == |recs| && forall i :: 0 <= i < |nodes| ==> Says(nodes[i].field, recs[i], s)
  }

  lemma {:induction false} SaysIn(f: Field, rec: Record, s: set<object>, s': set<object>)
    requires Says(f, rec, s) && s <= s'
    ensures Says(f, rec, s')
  {}

  lemma {:induction false} AllSayIn(nodes: seq<BucketNode>, recs: seq<Record>, s: set<object>, s': set<object>)
    requires AllSay(nodes, recs, s) && s <= s'
    ensures AllSay(nodes, recs, s')
  {
    forall i | 0 <= i < |nodes|
      ensures Says(nodes[i].field, recs[i], s')
    {
      SaysIn(nodes[i].field, recs[i], s, s');
    }
  }

  lemma {:induction false} AllSayMore(nodes: seq<BucketNode>, recs: seq<Record>, s: set<object>,
                                      node: BucketNode, rec: Record, t: set<object>)
    requires AllSay(nodes, recs, s) && Says(node.field, rec, t)
    ensures AllSay(nodes + [node], recs + [rec], s + t)
  {
    AllSayIn(nodes, recs, s, s + t);
    SaysIn(node.field, rec, t, s + t);
  }

  lemma {:induction false} OneChained(node: BucketNode)
    requires node.next == null
    ensures BucketChained([]) && BucketChained([] + [node])
  {}

  /** tail->next = node */
  method LinkBucket(tail: BucketNode, node: BucketNode, ghost nodes: seq<BucketNode>)
    requires BucketChained(nodes) && nodes != [] && tail == nodes[|nodes| - 1]
    requires node.next == null && node !in nodes
    modifies tail`next
    ensures BucketChained(nodes + [node])
    ensures forall o: object {:trigger allocated(o)} {:trigger old(allocated(o))} :: allocated(o) ==> old(allocated(o))
  {
    assert forall i :: 0 <= i < |nodes| - 1 ==> nodes[i].next != null;
    tail.next := node;
  }

  /** From index i on, the first record of that name, or the number of records. */
  function FindFrom(recs: seq<Record>, name: bytes, i: nat): (k: nat)
    requires i <= |recs|
    ensures k <= |recs|
    decreases |recs| - i
  {
    if i == |recs| || recs[i].name == name then i else FindFrom(recs, name, i + 1)
  }

  function FindRecord(recs: seq<Record>, name: bytes): (k: nat)
    ensures k <= |recs|
  {
    FindFrom(recs, name, 0)
  }

  lemma {:induction false} FindFromIsFirst(recs: seq<Record>, name: bytes, i: nat)
    requires i <= |recs|
    ensures var k := FindFrom(recs, name, i);
      && i <= k && (k < |recs| ==> recs[k].name == name)
      && forall j :: i <= j < k ==> recs[j].name != name
    decreases |recs| - i
  {
    if i == |recs| || recs[i].name == name {
    } else {
      FindFromIsFirst(recs, name, i + 1);
    }
  }

  lemma {:induction false} SaysAt(nodes: seq<BucketNode>, recs: seq<Record>, s: set<object>, i: nat)
    requires AllSay(nodes, recs, s) && i < |nodes|
    ensures |nodes| == |recs| && Says(nodes[i].field, recs[i], s) && nodes[i].field.name == Some(recs[i].name)
  {}

  lemma {:induction false} SameCount(nodes: seq<BucketNode>, recs: seq<Record>, s: set<object>)
    requires AllSay(nodes, recs, s)
    ensures |nodes| == |recs|
  {}

  class FieldBucket {
    var root: BucketNode?
    var tail: BucketNode?
    ghost var nodes: seq<BucketNode>
    /** The parts of the fields in the bucket. */
    ghost var owned: set<object>
    /** What the fields in the bucket say, in order. */
    ghost var contents: seq<Record>

    ghost predicate Valid()
      reads this, nodes, owned
    {
      && BucketChained(nodes)
      && root == NthBucketNode(nodes, 0) && tail == NthBucketNode(nodes, |nodes| - 1)
      && this !in owned && (forall n :: n in nodes ==> n !in owned)
      && AllSay(nodes, contents, owned)
    }

    /** ee_newFieldbucket */
    constructor ()
      ensures Valid() && contents == [] && owned == {} && nodes == []
      ensures forall o: object {:trigger allocated(o)} {:trigger old(allocated(o))} ::
        allocated(o) ==> old(allocated(o)) || o == this
    {
      root, tail, nodes, owned, contents := null, null, [], {}, [];
    }

    /** ee_addFieldToBucket: the field is the last one from now on. */
    method AddField(field: Field, ghost rec: Record)
      requires Valid() && Says(field, rec, Own(field))
      requires this !in Own(field) && forall n :: n in nodes ==> n !in Own(field)
      modifies this, Tail(nodes)`next
      ensures Valid() && contents == old(contents) + [rec] && owned == old(owned + Own(field))
      ensures |nodes| == |old(nodes)| + 1 && old(nodes) <= nodes && fresh(nodes[|old(nodes)|])
      ensures forall o: object {:trigger allocated(o)} {:trigger old(allocated(o))} ::
        allocated(o) ==> old(allocated(o)) || o == nodes[|nodes| - 1]
    {
      hide AllSay, BucketChained, Says, Own;
      ghost var own := Own(field);
      assert allocated(owned) && allocated(own);
      var node := new BucketNode(field);
      if root == null {
        root, tail := node, node;
        OneChained(node);
      } else {
        LinkBucket(tail, node, nodes);
        tail := node;
      }
      assert Says(field, rec, own);
      AllSayMore(nodes, contents, owned, node, rec, own);
      nodes := nodes + [node];
      contents := contents + [rec];
      owned := owned + own;
    }

    /** ee_getBucketField: the first field of that name. */
    method GetField(name: bytes) returns (f: Field?)
      requires Valid()
      ensures |nodes| == |contents|
      ensures var k := FindRecord(contents, name);
        if k == |contents| then f == null else f == nodes[k].field && Says(f, contents[k], owned)
    {
      hide AllSay, Says;
      var node := root;
      ghost var i := 0;
      SameCount(nodes, contents, owned);
      while node != null
        invariant 0 <= i <= |nodes| && node == NthBucketNode(nodes, i)
        invariant FindFrom(contents, name, i) == FindRecord(contents, name)
        decreases |nodes| - i
      {
        SaysAt(nodes, contents, owned, i);
        if node.field.name == Some(name) {
          return node.field;
        }
        node := node.next;
        i := i + 1;
      }
      return null;
    }
  }

  ghost function Tail(nodes: seq<BucketNode>): set<BucketNode> {
    if nodes == [] then {} else {nodes[|nodes| - 1]}
  }

  lemma {:induction false} ListMore(a: seq<BucketNode>, b: seq<BucketNode>)
    requires |b| == |a| + 1 && a <= b
    ensures forall n :: n in b ==> n in a || n == b[|a|]
  {
    assert b == a + [b[|a|]];
  }

  class Event {
    var fields: FieldBucket?

    /** The event, its bucket, and everything in the bucket. */
    ghost function Parts(): set<object>
      reads this, fields
    {
      if fields == null then {this} else BucketParts(fields) + {this}
    }

    ghost predicate Valid()
      reads this, fields, Parts()
    {
      fields != null ==> fields.Valid()
    }

    ghost function Contents(): seq<Record>
      reads this, fields
    {
      if fields == null then [] else fields.contents
    }

    /** ee_newEvent */
    constructor ()
      ensures Valid() && Contents() == [] && fields == null
      ensures forall o: object {:trigger allocated(o)} {:trigger old(allocated(o))} ::
        allocated(o) ==> old(allocated(o)) || o == this
    {
      fields := null;
    }

    /** ee_addFieldToEvent: the bucket is made when the first field comes. */
    method AddField(field: Field, ghost rec: Record)
      requires Valid() && Says(field, rec, Own(field)) && Parts() !! Own(field)
      modifies Parts()
      ensures Valid() && Contents() == old(Contents()) + [rec]
      ensures fresh(Parts() - old(Parts()) - old(Own(field)))
    {
      hide AllSay, BucketChained;
      if fields == null {
        fields := new FieldBucket();
      }
      ghost var before := fields.nodes;
      fields.AddField(field, rec);
      ListMore(before, fields.nodes);
    }
  }

  ghost function BucketParts(b: FieldBucket): set<object>
    reads b
  {
    var list: set<object> := set n | n in b.nodes;
    list + b.owned + {b}
  }
}
