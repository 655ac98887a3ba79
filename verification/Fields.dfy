/** Fields: a name and up to 255 values, the first of them inline and the others in a list with a
    tail pointer. */
module Fields {
  import opened Bytes
  import opened Seqs

  datatype Option<+T> = None | Some(value: T)

  const EE_OK := 0
  const EE_ERR := -1
  const EE_EOF := -3
  const EE_INVLDFMT := -4
  const EE_FIELDHASNAME := -5
  const EE_TOOMANYVALUES := -6
  const EE_WRONGPARSER := -7

  const MAX_VALS_PER_FIELD := 255

  /** unsigned char */
  type counter = n: int | 0 <= n < 256

  class ValNode {
    var val: bytes
    var next: ValNode?

    constructor (v: bytes)
      ensures val == v && next == null
    {
      val, next := v, null;
    }
  }

  function NthNode(nodes: seq<ValNode>, i: int): ValNode? {
    if 0 <= i < |nodes| then nodes[i] else null
  }

  /** Each node points at the following one. */
  ghost predicate Chained(nodes: seq<ValNode>)
    reads nodes`next
  {
    forall i {:trigger nodes[i].next} :: 0 <= i < |nodes| ==> nodes[i].next == NthNode(nodes, i + 1)
  }

  lemma {:induction false} LoneChained(node: ValNode)
    requires node.next == null
    ensures Chained([] + [node])
  {}

  /** No node occurs twice in a chain: equal nodes would have equally long rests. */
  lemma {:induction false} ChainedDistinct(nodes: seq<ValNode>, i: nat, j: nat)
    requires Chained(nodes) && i < j < |nodes|
    ensures nodes[i] != nodes[j]
    decreases |nodes| - j
  {
    assert nodes[i].next == NthNode(nodes, i + 1) && nodes[j].next == NthNode(nodes, j + 1);
    if j + 1 == |nodes| {
    } else {
      ChainedDistinct(nodes, i + 1, j + 1);
    }
  }

  lemma {:induction false} OnlyAt(nodes: seq<ValNode>, k: nat)
    requires Chained(nodes) && k < |nodes|
    ensures forall i :: 0 <= i < |nodes| && i != k ==> nodes[i] != nodes[k]
  {
    forall i | 0 <= i < |nodes| && i != k
      ensures nodes[i] != nodes[k]
    {
      if i < k {
        ChainedDistinct(nodes, i, k);
      } else {
        ChainedDistinct(nodes, k, i);
      }
    }
  }

  ghost function ValuesOf(nodes: seq<ValNode>): (vs: seq<bytes>)
    reads nodes`val
    ensures |vs| == |nodes|
  {
    if nodes == [] then [] else ValuesOf(nodes[..|nodes| - 1]) + [nodes[|nodes| - 1].val]
  }

  lemma {:induction false} ValuesAt(nodes: seq<ValNode>)
    ensures forall i :: 0 <= i < |nodes| ==> ValuesOf(nodes)[i] == nodes[i].val
  {
    if nodes == [] {
    } else {
      ValuesAt(nodes[..|nodes| - 1]);
      assert forall i :: 0 <= i < |nodes| - 1 ==> nodes[i] == nodes[..|nodes| - 1][i];
    }
  }

  lemma {:induction false} UpdateFirst(x: bytes, t: seq<bytes>, v: bytes)
    ensures ([x] + t)[0 := v] == [v] + t
  {}

  lemma {:induction false} UpdateBehind(x: bytes, t: seq<bytes>, k: nat, v: bytes)
    requires k < |t|
    ensures ([x] + t)[k + 1 := v] == [x] + t[k := v]
  {}

  lemma {:induction false} ValuesAppend(nodes: seq<ValNode>, x: ValNode)
    ensures ValuesOf(nodes + [x]) == ValuesOf(nodes) + [x.val]
  {
    assert (nodes + [x])[..|nodes|] == nodes;
  }

  class Field {
    var name: Option<bytes>
    var nVals: counter
    var val: bytes
    var valroot: ValNode?
    var valtail: ValNode?
    ghost var nodes: seq<ValNode>

    ghost predicate Valid()
      reads this, nodes
    {
      && Chained(nodes)
      && valroot == NthNode(nodes, 0) && valtail == NthNode(nodes, |nodes| - 1)
      && (if nVals == 0 then nodes == [] else nVals == 1 + |nodes|)
    }

    /** The values of the field, in order. */
    ghost function Values(): (vs: seq<bytes>)
      requires Valid()
      reads this, nodes
      ensures |vs| == nVals
    {
      if nVals == 0 then [] else [val] + ValuesOf(nodes)
    }

    /** ee_newField */
    constructor ()
      ensures Valid() && Values() == [] && name == None && fresh(nodes)
    {
      name, nVals, val, valroot, valtail, nodes := None, 0, [], null, null, [];
    }

    /** ee_newFieldFromNV */
    constructor FromNameValue(n: bytes, v: bytes)
      ensures Valid() && Values() == [v] && name == Some(n) && nodes == []
      ensures forall o: object {:trigger allocated(o)} {:trigger old(allocated(o))} ::
        allocated(o) ==> old(allocated(o)) || o == this
    {
      name, nVals, val, valroot, valtail, nodes := Some(n), 1, v, null, null, [];
    }

    /** ee_nameField: a name is given once. */
    method NameField(n: bytes) returns (r: int)
      modifies this`name
      ensures r == if old(name) == None then EE_OK else EE_FIELDHASNAME
      ensures name == if old(name) == None then Some(n) else old(name)
    {
      if name != None {
        return EE_FIELDHASNAME;
      }
      name := Some(n);
      return EE_OK;
    }

    /** ee_addValueToField: the 256th value is refused, and then nothing changes. */
    method AddValue(v: bytes) returns (r: int)
      requires Valid()
      modifies this, nodes
      ensures Valid() && name == old(name)
      ensures old(nodes) <= nodes && fresh(nodes[|old(nodes)|..])
      ensures r == if old(nVals) == MAX_VALS_PER_FIELD then EE_TOOMANYVALUES else EE_OK
      ensures Values() == if r == EE_OK then old(Values()) + [v] else old(Values())
      ensures r != EE_OK ==> unchanged(this) && unchanged(nodes)
    {
      if nVals == 0 {
        nVals := 1;
        val := v;
      } else if nVals == MAX_VALS_PER_FIELD {
        return EE_TOOMANYVALUES;
      } else {
        AddNode(v);
      }
      return EE_OK;
    }

    /** The branch of ee_addValueToField that extends the list. */
    method AddNode(v: bytes)
      requires Valid() && 0 < nVals < MAX_VALS_PER_FIELD
      modifies this`nVals, this`valroot, this`valtail, this`nodes, nodes`next
      ensures Valid() && nVals == old(nVals) + 1
      ensures old(nodes) <= nodes && fresh(nodes[|old(nodes)|..])
      ensures ValuesOf(nodes) == old(ValuesOf(nodes)) + [v]
    {
      hide ValuesOf, Chained;
      ghost var before := nodes;
      var valnode := new ValNode(v);
      nVals := nVals + 1;
      if valtail == null {
        valroot, valtail := valnode, valnode;
        LoneChained(valnode);
      } else {
        Link(valtail, valnode, nodes);
        valtail := valnode;
      }
      ValuesAppend(before, valnode);
      nodes := nodes + [valnode];
    }

    /** tail->next = valnode */
    static method Link(tail: ValNode, valnode: ValNode, ghost nodes: seq<ValNode>)
      requires Chained(nodes) && nodes != [] && tail == nodes[|nodes| - 1]
      requires valnode.next == null && valnode !in nodes
      modifies tail`next
      ensures Chained(nodes + [valnode])
    {
      OnlyAt(nodes, |nodes| - 1);
      tail.next := valnode;
    }

    /** The walk to the list node of value n. */
    method NodeAt(n: nat) returns (curNode: ValNode)
      requires Valid() && 1 <= n < nVals
      ensures curNode == nodes[n - 1]
    {
      curNode := valroot;
      var i := 1;
      while i < n
        invariant 1 <= i <= n && curNode == nodes[i - 1]
      {
        curNode := curNode.next;
        i := i + 1;
      }
    }

    static method SetValue(node: ValNode, v: bytes, ghost nodes: seq<ValNode>, ghost k: nat)
      requires Chained(nodes) && k < |nodes| && node == nodes[k]
      modifies node`val
      ensures ValuesOf(nodes) == old(ValuesOf(nodes))[k := v]
    {
      ValuesAt(nodes);
      OnlyAt(nodes, k);
      ghost var before := ValuesOf(nodes);
      node.val := v;
      ValuesAt(nodes);
      assert ValuesOf(nodes) == before[k := v];
    }

    /** ee_replaceValueInField */
    method ReplaceValue(v: bytes, n: nat) returns (r: int)
      requires Valid()
      modifies this`val, nodes`val
      ensures Valid()
      ensures r == if n < nVals then 0 else 1
      ensures Values() == if n < nVals then old(Values())[n := v] else old(Values())
    {
      hide ValuesOf, Chained;
      if n >= nVals {
        return 1;
      } else if n == 0 {
        UpdateFirst(val, ValuesOf(nodes), v);
        val := v;
      } else {
        var curNode := NodeAt(n);
        UpdateBehind(val, ValuesOf(nodes), n - 1, v);
        SetValue(curNode, v, nodes, n - 1);
      }
      return 0;
    }

    /** ee_getFieldValueAsStr */
    method GetValueAsStr(n: nat) returns (str: Option<bytes>)
      requires Valid()
      ensures str == if n < nVals then Some(Values()[n]) else None
    {
      if n >= nVals {
        return None;
      }
      if n == 0 {
        return Some(val);
      }
      var curNode := NodeAt(n);
      ValuesAt(nodes);
      return Some(curNode.val);
    }

    /** ee_getFieldAsString: all values run together; a field without values is an error. */
    method GetAsString(str: bytes) returns (r: int, str': bytes)
      requires Valid()
      ensures r == if nVals == 0 then EE_ERR else EE_OK
      ensures str' == str + Concat(Values())
    {
      hide ValuesOf;
      if nVals == 0 {
        return EE_ERR, str;
      }
      str' := str + val;
      var node := valroot;
      ghost var i := 0;
      ghost var vs := ValuesOf(nodes);
      ValuesAt(nodes);
      assert vs[0..] == vs && Values()[1..] == vs;
      Assoc(str, val, Concat(vs));
      while node != null
        invariant 0 <= i <= |nodes| && node == NthNode(nodes, i)
        invariant str' + Concat(vs[i..]) == str + Concat(Values())
        decreases |nodes| - i
      {
        assert vs[i..][1..] == vs[i + 1..];
        Assoc(str', node.val, Concat(vs[i + 1..]));
        str' := str' + node.val;
        node := node.next;
        i := i + 1;
      }
      assert vs[i..] == [] && str' + [] == str';
      r := EE_OK;
    }
  }

  function Concat(vs: seq<bytes>): bytes {
    if vs == [] then [] else vs[0] + Concat(vs[1..])
  }

  /** Of one value it is that value, and of two lists their texts one behind the other. */
  lemma {:induction false} ConcatJoins(v: bytes, a: seq<bytes>, b: seq<bytes>)
    ensures Concat([v]) == v && Concat(a + b) == Concat(a) + Concat(b)
    decreases |a|
  {
    if a == [] {
      NothingBefore(b);
      NothingBefore(Concat(b));
      assert [v][1..] == [] && v + [] == v;
    } else {
      ConcatJoins(v, a[1..], b);
      assert (a + b)[1..] == a[1..] + b;
      Assoc(a[0], Concat(a[1..]), Concat(b));
    }
  }
}
