/** cJSON's operations on the child list of an array or object. A container's children are given
    by a ghost sequence, which each operation takes from its value before to its value after. */
module NodeLists {
  import opened Bytes
  import opened JsonStringCode
  import opened Nodes

  /** The children of a container, in order. */
  ghost predicate Children(container: Node, nodes: seq<Node>)
    reads container`child, nodes`prev, nodes`next
  {
    container.child == Nth(nodes, 0) && Linked(nodes)
  }

  function RemoveAt<T>(s: seq<T>, k: nat): (r: seq<T>)
    requires k < |s|
    ensures |r| == |s| - 1 && forall i :: 0 <= i < |r| ==> r[i] == s[if i < k then i else i + 1]
  {
    s[..k] + s[k + 1..]
  }

  /** A negative index counts as zero: the walks only test whether it is still positive. */
  function Index(which: int): (k: nat)
    ensures k == which || (k == 0 && which < 0)
  {
    if which > 0 then which else 0
  }

  ghost function Only(n: Node?): set<Node> {
    if n == null then {} else {n}
  }

  // ---------- names ----------

  /** tolower in the C locale. */
  function Lower(c: byte): byte {
    if 0x41 <= c <= 0x5A then c + 0x20 else c
  }

  predicate IsCapital(c: byte) {
    0x41 <= c <= 0x5A
  }

  /** Two characters are not told apart exactly if they are the same or one letter in both cases. */
  lemma {:induction false} LowerMerges(a: byte, b: byte)
    ensures Lower(a) == Lower(b)
      <==> a == b || (IsCapital(a) && b == a + 0x20) || (IsCapital(b) && a == b + 0x20)
  {}

  /** The two C strings agree up to the case of letters. */
  predicate SameLetters(a: bytes, b: bytes) {
    |a| == |b| && forall i :: 0 <= i < |a| ==> Lower(a[i]) == Lower(b[i])
  }

  /** The content of a buffer up to its terminator, given that there is one. */
  ghost predicate IsCStr(a: array?<byte>)
    reads a
  {
    a != null && NUL in a[..]
  }

  function UpToNul(t: bytes): bytes {
    if t == [] || t[0] == NUL then [] else [t[0]] + UpToNul(t[1..])
  }

  ghost function Content(a: array<byte>): bytes
    reads a
  {
    UpToNul(a[..])
  }

  lemma {:induction false} UpToNulIs(t: bytes, k: nat)
    requires k < |t| && t[k] == NUL && forall i :: 0 <= i < k ==> t[i] != NUL
    ensures UpToNul(t) == t[..k]
    decreases k
  {
    if k == 0 {
    } else {
      UpToNulIs(t[1..], k - 1);
    }
  }

  /** A missing name matches only a missing name. */
  ghost predicate NameMatches(a: array?<byte>, b: array?<byte>)
    requires a != null ==> IsCStr(a)
    requires b != null ==> IsCStr(b)
    reads a, b
  {
    if a == null || b == null then a == b else SameLetters(Content(a), Content(b))
  }

  lemma {:induction false} LaterNul(t: bytes, i: nat)
    requires i < |t| && NUL in t[i..] && t[i] != NUL
    ensures i + 1 < |t| && NUL in t[i + 1..]
  {
    assert t[i..] == [t[i]] + t[i + 1..];
  }

  /** cJSON_strcasecmp, of which the callers only test whether it is zero. */
  method StrCaseCmp(s1: array?<byte>, s2: array?<byte>) returns (r: int)
    requires s1 != null ==> IsCStr(s1)
    requires s2 != null ==> IsCStr(s2)
    ensures r == 0 <==> NameMatches(s1, s2)
  {
    if s1 == null {
      return if s1 == s2 then 0 else 1;
    }
    if s2 == null {
      return 1;
    }
    var i := 0;
    while Lower(s1[i]) == Lower(s2[i])
      invariant 0 <= i < s1.Length && i < s2.Length
      invariant NUL in s1[..][i..] && NUL in s2[..][i..]
      invariant forall k :: 0 <= k < i ==> s1[k] != NUL && s2[k] != NUL && Lower(s1[k]) == Lower(s2[k])
      decreases s1.Length - i
    {
      if s1[i] == NUL {
        UpToNulIs(s1[..], i);
        UpToNulIs(s2[..], i);
        return 0;
      }
      LaterNul(s1[..], i);
      LaterNul(s2[..], i);
      i := i + 1;
    }
    DifferentAt(s1[..], s2[..], i);
    return Lower(s1[i]) - Lower(s2[i]);
  }

  lemma {:induction false} UpToNulAt(t: bytes, i: nat)
    requires i < |t| && NUL in t && forall k :: 0 <= k < i ==> t[k] != NUL
    ensures if t[i] == NUL then |UpToNul(t)| == i else i < |UpToNul(t)| && UpToNul(t)[i] == t[i]
    decreases i
  {
    if i == 0 {
    } else {
      UpToNulAt(t[1..], i - 1);
    }
  }

  lemma {:induction false} DifferentAt(a: bytes, b: bytes, i: nat)
    requires i < |a| && i < |b| && NUL in a && NUL in b
    requires forall k :: 0 <= k < i ==> a[k] != NUL && b[k] != NUL
    requires Lower(a[i]) != Lower(b[i])
    ensures !SameLetters(UpToNul(a), UpToNul(b))
  {
    UpToNulAt(a, i);
    UpToNulAt(b, i);
  }

  /** The C strings that a lookup by name may compare. */
  ghost function Names(nodes: seq<Node>): set<object>
    reads nodes`name
  {
    set n | n in nodes && n.name != null :: n.name
  }

  ghost predicate Named(nodes: seq<Node>)
    reads nodes`name, Names(nodes)
  {
    forall i :: 0 <= i < |nodes| && nodes[i].name != null ==> IsCStr(nodes[i].name)
  }

  /** From index i on, the first child of that name, or the number of children when there is none. */
  ghost function FindFrom(nodes: seq<Node>, key: array?<byte>, i: nat): (k: nat)
    requires Named(nodes) && (key != null ==> IsCStr(key)) && i <= |nodes|
    reads nodes`name, Names(nodes), key
    decreases |nodes| - i
  {
    if i == |nodes| || NameMatches(nodes[i].name, key) then i else FindFrom(nodes, key, i + 1)
  }

  ghost function Find(nodes: seq<Node>, key: array?<byte>): nat
    requires Named(nodes) && (key != null ==> IsCStr(key))
    reads nodes`name, Names(nodes), key
  {
    FindFrom(nodes, key, 0)
  }

  lemma {:induction false} FindIsFirst(nodes: seq<Node>, key: array?<byte>, i: nat)
    requires Named(nodes) && (key != null ==> IsCStr(key)) && i <= |nodes|
    ensures var k := FindFrom(nodes, key, i);
      && i <= k <= |nodes|
      && (k < |nodes| ==> NameMatches(nodes[k].name, key))
      && forall j :: i <= j < k ==> !NameMatches(nodes[j].name, key)
    decreases |nodes| - i
  {
    if i == |nodes| || NameMatches(nodes[i].name, key) {
    } else {
      FindIsFirst(nodes, key, i + 1);
    }
  }

  // ---------- looking up ----------

  method GetArraySize(parent: Node, ghost nodes: seq<Node>) returns (i: nat)
    requires Children(parent, nodes)
    ensures i == |nodes|
  {
    var c := parent.child;
    i := 0;
    while c != null
      invariant i <= |nodes| && c == Nth(nodes, i)
      decreases |nodes| - i
    {
      i, c := i + 1, c.next;
    }
  }

  method GetArrayItem(parent: Node, item: int, ghost nodes: seq<Node>) returns (c: Node?)
    requires Children(parent, nodes)
    ensures c == Nth(nodes, Index(item))
  {
    c := parent.child;
    var left := item;
    ghost var k := 0;
    while c != null && left > 0
      invariant k <= |nodes| && c == Nth(nodes, k)
      invariant k + Index(left) == Index(item)
      decreases |nodes| - k
    {
      left, c := left - 1, c.next;
      k := k + 1;
    }
  }

  /** The search both cJSON_GetObjectItem and the operations by name make: the index counts the
      children passed. */
  method SearchObject(parent: Node, key: array?<byte>, ghost nodes: seq<Node>) returns (c: Node?, i: nat)
    requires Children(parent, nodes) && Named(nodes) && (key != null ==> IsCStr(key))
    ensures i == Find(nodes, key) && c == Nth(nodes, i)
  {
    c, i := parent.child, 0;
    while c != null
      invariant i <= |nodes| && c == Nth(nodes, i)
      invariant FindFrom(nodes, key, i) == Find(nodes, key)
      decreases |nodes| - i
    {
      assert allocated(Names(nodes));
      var r := StrCaseCmp(c.name, key);
      if r == 0 {
        return;
      }
      i, c := i + 1, c.next;
    }
  }

  method GetObjectItem(parent: Node, key: array?<byte>, ghost nodes: seq<Node>) returns (c: Node?)
    requires Children(parent, nodes) && Named(nodes) && (key != null ==> IsCStr(key))
    ensures c == Nth(nodes, Find(nodes, key))
  {
    var i;
    c, i := SearchObject(parent, key, nodes);
  }

  // ---------- appending ----------

  /** A missing item is ignored; an item that is already linked somewhere must not be passed. */
  method AddItemToArray(parent: Node, item: Node?, ghost nodes: seq<Node>)
    requires Children(parent, nodes)
    requires item != null ==> item !in nodes && item.next == null && item.prev == null
    modifies parent`child, Only(Nth(nodes, |nodes| - 1))`next, Only(item)`prev
    ensures Children(parent, if item == null then nodes else nodes + [item])
    ensures item == null ==> unchanged(parent, nodes)
  {
    var c := parent.child;
    if item == null {
      return;
    }
    if c == null {
      parent.child := item;
    } else {
      ghost var k := 0;
      while c.next != null
        invariant k < |nodes| && c == nodes[k]
        decreases |nodes| - k
      {
        c := c.next;
        k := k + 1;
      }
      SuffixObject(c, item);
    }
  }

  method SuffixObject(prev: Node, item: Node)
    modifies prev`next, item`prev
    ensures prev.next == item && item.prev == prev
  {
    prev.next := item;
    item.prev := prev;
  }

  /** cJSON_strdup. */
  method StrDup(str: array<byte>) returns (copy: array<byte>)
    requires IsCStr(str)
    ensures fresh(copy) && Holds(copy, Content(str))
  {
    var len := 0;
    while str[len] != NUL
      invariant 0 <= len < str.Length && NUL in str[len..]
      invariant forall k :: 0 <= k < len ==> str[k] != NUL
      decreases str.Length - len
    {
      assert str[len..] == [str[len]] + str[len + 1..];
      len := len + 1;
    }
    UpToNulIs(str[..], len);
    copy := new byte[len + 1](i requires 0 <= i < str.Length reads str => str[i]);
  }

  /** The new name replaces the old one, which is freed before the key is copied; so the key must be
      another string. */
  method AddItemToObject(parent: Node, key: array<byte>, item: Node?, ghost nodes: seq<Node>)
    returns (freed: seq<object>)
    requires Children(parent, nodes) && IsCStr(key)
    requires item != null ==> item !in nodes && item.next == null && item.prev == null && item.name != key
    modifies parent`child, Only(Nth(nodes, |nodes| - 1))`next, Only(item)`prev, Only(item)`name
    ensures Children(parent, if item == null then nodes else nodes + [item])
    ensures item != null ==> item.name != null && fresh(item.name) && Holds(item.name, old(Content(key)))
    ensures freed == if item == null || old(item.name) == null then [] else [old(item.name)]
  {
    freed := [];
    if item == null {
      return;
    }
    if item.name != null {
      freed := [item.name];
    }
    item.name := StrDup(key);
    AddItemToArray(parent, item, nodes);
  }

  /** create_reference: a copy of the struct that shares its child list and key with the item,
      and owns nothing but itself. */
  method CreateReference(item: Node) returns (ref: Node)
    ensures fresh(ref) && ref.isReference && ref.next == null && ref.prev == null && ref.name == null
    ensures ref.child == item.child && ref.kind == item.kind && ref.valuestring == item.valuestring
    ensures ref.valueint == item.valueint && ref.valuedouble == item.valuedouble
    ensures Fits(Shape(ref, null, null, []))
  {
    ref := new Node();
    ref.child, ref.kind, ref.valuestring := item.child, item.kind, item.valuestring;
    ref.valueint, ref.valuedouble := item.valueint, item.valuedouble;
    ref.isReference := true;
  }

  // ---------- removing and replacing ----------

  method DetachItemFromArray(parent: Node, which: int, ghost nodes: seq<Node>) returns (c: Node?)
    requires Children(parent, nodes)
    modifies parent`child, nodes`next, nodes`prev
    ensures c == Nth(nodes, Index(which))
    ensures c == null ==> unchanged(parent, nodes)
    ensures c != null ==> Children(parent, RemoveAt(nodes, Index(which))) && c.next == null && c.prev == null
  {
    hide RemoveAt;
    c := GetArrayItem(parent, which, nodes);
    if c == null {
      return;
    }
    ghost var k := Index(which);
    LinkedAllDistinct(nodes);
    if c.prev != null {
      c.prev.next := c.next;
    }
    if c.next != null {
      c.next.prev := c.prev;
    }
    if c == parent.child {
      parent.child := c.next;
    }
    c.prev, c.next := null, null;
    UnlinkedIsRemoved(nodes, k);
    RemovedNth(nodes, k, 0);
  }

  lemma {:induction false} RemovedNth(nodes: seq<Node>, k: nat, i: int)
    requires k < |nodes|
    ensures Nth(RemoveAt(nodes, k), i) == Nth(nodes, if i < k then i else i + 1)
  {}

  /** Every node but the one at k points past it. */
  ghost predicate UnlinkedAt(nodes: seq<Node>, k: nat)
    reads nodes
  {
    forall i {:trigger nodes[i].prev} {:trigger nodes[i].next} :: 0 <= i < |nodes| && i != k ==>
      && nodes[i].prev == Nth(nodes, if i == k + 1 then k - 1 else i - 1)
      && nodes[i].next == Nth(nodes, if i == k - 1 then k + 1 else i + 1)
  }

  lemma {:induction false} UnlinkedIsRemoved(nodes: seq<Node>, k: nat)
    requires k < |nodes| && UnlinkedAt(nodes, k)
    ensures Linked(RemoveAt(nodes, k))
  {
    var rest := RemoveAt(nodes, k);
    forall i | 0 <= i < |rest|
      ensures rest[i].prev == Nth(rest, i - 1) && rest[i].next == Nth(rest, i + 1)
    {
      RemovedNth(nodes, k, i - 1);
      RemovedNth(nodes, k, i);
      RemovedNth(nodes, k, i + 1);
    }
  }

  lemma {:induction false} LinkedAllDistinct(nodes: seq<Node>)
    requires Linked(nodes)
    ensures forall i, j :: 0 <= i < j < |nodes| ==> nodes[i] != nodes[j]
  {
    forall i, j | 0 <= i < j < |nodes|
      ensures nodes[i] != nodes[j]
    {
      LinkedDistinct(nodes, i, j);
    }
  }

  /** Removes exactly the item a lookup of that name finds. */
  method DetachItemFromObject(parent: Node, key: array?<byte>, ghost nodes: seq<Node>) returns (c: Node?)
    requires Children(parent, nodes) && Named(nodes) && (key != null ==> IsCStr(key))
    modifies parent`child, nodes`next, nodes`prev
    ensures c == Nth(nodes, old(Find(nodes, key)))
    ensures c == null ==> unchanged(parent, nodes)
    ensures c != null ==> Children(parent, RemoveAt(nodes, old(Find(nodes, key)))) && c.next == null && c.prev == null
  {
    ghost var k := Find(nodes, key);
    assert allocated(Names(nodes));
    var found, i := SearchObject(parent, key, nodes);
    assert i == k;
    if found != null {
      c := DetachItemFromArray(parent, i, nodes);
    } else {
      c := null;
    }
  }

  /** Every node but the one at k points at the new item where it pointed at that one. */
  ghost predicate RelinkedAt(nodes: seq<Node>, k: nat, newitem: Node)
    reads nodes`prev, nodes`next, newitem`prev, newitem`next
  {
    && newitem.prev == Nth(nodes, k - 1) && newitem.next == Nth(nodes, k + 1)
    && forall i {:trigger nodes[i].prev} {:trigger nodes[i].next} :: 0 <= i < |nodes| && i != k ==>
      && nodes[i].prev == (if i == k + 1 then newitem else Nth(nodes, i - 1))
      && nodes[i].next == (if i == k - 1 then newitem else Nth(nodes, i + 1))
  }

  lemma {:induction false} RelinkedIsReplaced(nodes: seq<Node>, k: nat, newitem: Node)
    requires k < |nodes| && RelinkedAt(nodes, k, newitem)
    ensures Linked(nodes[k := newitem])
  {
    var rest := nodes[k := newitem];
    forall i | 0 <= i < |rest|
      ensures rest[i].prev == Nth(rest, i - 1) && rest[i].next == Nth(rest, i + 1)
    {
      if i != k {
        assert rest[i] == nodes[i];
      }
    }
  }

  /** The walk stops at the item to replace; the new item takes over its links and the old one is
      left without any. */
  method RelinkItem(parent: Node, which: int, newitem: Node, ghost nodes: seq<Node>) returns (c: Node?)
    requires Children(parent, nodes) && newitem !in nodes
    modifies parent`child, nodes`next, nodes`prev, newitem`next, newitem`prev
    ensures c == Nth(nodes, Index(which))
    ensures c == null ==> unchanged(parent, nodes, newitem)
    ensures c != null ==> Children(parent, nodes[Index(which) := newitem]) && c.next == null && c.prev == null
  {
    c := GetArrayItem(parent, which, nodes);
    if c == null {
      return;
    }
    ghost var k := Index(which);
    LinkedAllDistinct(nodes);
    newitem.next := c.next;
    newitem.prev := c.prev;
    if newitem.next != null {
      newitem.next.prev := newitem;
    }
    if c == parent.child {
      parent.child := newitem;
    } else {
      newitem.prev.next := newitem;
    }
    c.next, c.prev := null, null;
    RelinkedIsReplaced(nodes, k, newitem);
  }

  // ---------- operations that free ----------

  /** The container's children are these trees, and nobody else owns a part of them. */
  ghost predicate Owns(container: Node, kids: seq<Shape>)
    reads container`child, Below(kids)
  {
    && container.child == Nth(NodesOf(kids), 0) && container !in Below(kids)
    && SeparateAll(kids) && FitsAll(kids)
  }

  /** Neither the container nor the nodes of siblings are part of what a child owns below itself. */
  lemma {:induction false} SiblingsApart(container: Node, kids: seq<Shape>, i: nat)
    requires SeparateAll(kids) && container !in Below(kids) && i < |kids|
    ensures container != kids[i].node && Below(kids[i].kids) <= Below(kids)
    ensures forall n :: n in NodesOf(kids) ==> n !in Below(kids[i].kids)
  {
    assert Footprint(kids[i]) <= Below(kids);
    forall n | n in NodesOf(kids)
      ensures n !in Below(kids[i].kids)
    {
      var j :| 0 <= j < |kids| && n == NodesOf(kids)[j];
      assert n in Footprint(kids[j]);
    }
  }

  lemma {:induction false} RemovedKids(kids: seq<Shape>, k: nat)
    requires k < |kids|
    ensures NodesOf(RemoveAt(kids, k)) == RemoveAt(NodesOf(kids), k)
    ensures Below(RemoveAt(kids, k)) <= Below(kids)
    ensures SeparateAll(kids) ==> SeparateAll(RemoveAt(kids, k))
  {
    var rest := RemoveAt(kids, k);
    assert forall i :: 0 <= i < |rest| ==> rest[i] == kids[if i < k then i else i + 1];
    forall o | o in Below(rest)
      ensures o in Below(kids)
    {
      var i :| 0 <= i < |rest| && o in Footprint(rest[i]);
      assert rest[i] == kids[if i < k then i else i + 1];
    }
  }

  lemma {:induction false} KidsFit(kids: seq<Shape>)
    requires FitsAll(kids)
    ensures Linked(NodesOf(kids))
    ensures forall i :: 0 <= i < |kids| ==> FitsHead(kids[i]) && FitsAll(kids[i].kids)
  {
    assert forall i :: 0 <= i < |kids| ==> Fits(kids[i]);
  }

  lemma {:induction false} OwnsRest(container: Node, kids: seq<Shape>, k: nat)
    requires k < |kids| && SeparateAll(kids) && container !in Below(kids)
    requires forall i :: 0 <= i < |kids| ==> Fits(kids[i])
    requires Children(container, RemoveAt(NodesOf(kids), k))
    ensures Owns(container, RemoveAt(kids, k))
  {
    RemovedKids(kids, k);
    assert forall i :: 0 <= i < |RemoveAt(kids, k)| ==> RemoveAt(kids, k)[i] == kids[if i < k then i else i + 1];
  }

  lemma {:induction false} FitsAlone(sh: Shape)
    requires Fits(sh) && sh.node.prev == null && sh.node.next == null
    ensures FitsAll([sh]) && NodesOf([sh])[0] == sh.node
  {}

  /** Detaching hands the ownership of one child to the caller. */
  method DetachOwned(parent: Node, which: int, ghost kids: seq<Shape>) returns (c: Node?)
    requires Owns(parent, kids)
    modifies parent`child, NodesOf(kids)`next, NodesOf(kids)`prev
    ensures c == Nth(NodesOf(kids), Index(which))
    ensures c == null ==> Owns(parent, kids)
    ensures c != null ==> var k := Index(which); Owns(parent, RemoveAt(kids, k)) && FitsAll([kids[k]])
  {
    KidsFit(kids);
    assert allocated(Below(kids));
    c := DetachItemFromArray(parent, which, NodesOf(kids));
    forall i | 0 <= i < |kids|
      ensures Fits(kids[i])
    {
      SiblingsApart(parent, kids, i);
      assert old(FitsHead(kids[i]) && FitsAll(kids[i].kids));
    }
    if c != null {
      OwnsRest(parent, kids, Index(which));
      FitsAlone(kids[Index(which)]);
    }
  }

  lemma {:induction false} BelowOne(sh: Shape)
    ensures Below([sh]) == Footprint(sh)
    ensures SeparateAll([sh]) <==> Separate(sh)
  {
    assert [sh][0] == sh;
  }

  lemma {:induction false} FreesNone(freed: seq<object>)
    requires FreesExactly(freed, Below([]))
    ensures freed == []
  {
    if freed != [] {
      assert freed[0] in Below([]);
    }
  }

  /** cJSON_DeleteItemFromArray: exactly what the removed child owns is freed. */
  method DeleteItemFromArray(parent: Node, which: int, ghost kids: seq<Shape>) returns (freed: seq<object>)
    requires Owns(parent, kids)
    modifies parent`child, NodesOf(kids)`next, NodesOf(kids)`prev
    ensures Index(which) >= |kids| ==> Owns(parent, kids) && freed == []
    ensures Index(which) < |kids| ==>
      Owns(parent, RemoveAt(kids, Index(which))) && FreesExactly(freed, Footprint(kids[Index(which)]))
  {
    var c := DetachOwned(parent, which, kids);
    if c == null {
      assert allocated(Below(kids));
      freed := Delete(null, []);
      FreesNone(freed);
    } else {
      ghost var k := Index(which);
      BelowOne(kids[k]);
      assert allocated(Below(RemoveAt(kids, k)));
      freed := Delete(c, [kids[k]]);
    }
  }

  /** cJSON_DeleteItemFromObject: the first child of that name goes, if there is one. */
  method DeleteItemFromObject(parent: Node, key: array?<byte>, ghost kids: seq<Shape>) returns (freed: seq<object>)
    requires Owns(parent, kids) && Named(NodesOf(kids)) && (key != null ==> IsCStr(key))
    modifies parent`child, NodesOf(kids)`next, NodesOf(kids)`prev
    ensures var k := old(Find(NodesOf(kids), key));
      && (k == |kids| ==> Owns(parent, kids) && freed == [])
      && (k < |kids| ==> Owns(parent, RemoveAt(kids, k)) && FreesExactly(freed, Footprint(kids[k])))
  {
    ghost var nodes := NodesOf(kids);
    ghost var k := Find(nodes, key);
    FindIsFirst(nodes, key, 0);
    assert allocated(Names(nodes));
    assert allocated(Below(kids));
    var found, i := SearchObject(parent, key, nodes);
    assert i == k;
    if found != null {
      freed := DeleteItemFromArray(parent, i, kids);
    } else {
      freed := [];
    }
  }

  /** cJSON_ReplaceItemInArray: the new child stands where the old one stood, and exactly what the
      old one owned is freed. Past the end nothing happens. */
  method ReplaceItemInArray(parent: Node, which: int, newitem: Node, ghost kids: seq<Shape>, ghost sh: Shape)
    returns (freed: seq<object>)
    requires Owns(parent, kids)
    requires sh.node == newitem && Separate(sh) && Fits(sh)
    requires Footprint(sh) !! Below(kids) && parent !in Footprint(sh)
    modifies parent`child, NodesOf(kids)`next, NodesOf(kids)`prev, newitem`next, newitem`prev
    ensures Index(which) >= |kids| ==> Owns(parent, kids) && freed == []
    ensures Index(which) < |kids| ==>
      Owns(parent, kids[Index(which) := sh]) && FreesExactly(freed, Footprint(kids[Index(which)]))
  {
    var c := ReplaceOwned(parent, which, newitem, kids, sh);
    if c == null {
      freed := [];
    } else {
      ghost var k := Index(which);
      BelowOne(kids[k]);
      assert allocated(Below(kids[k := sh]));
      freed := Delete(c, [kids[k]]);
    }
  }

  lemma {:induction false} ReplacedBelow(kids: seq<Shape>, k: nat, sh: Shape)
    requires k < |kids|
    ensures NodesOf(kids[k := sh]) == NodesOf(kids)[k := sh.node]
    ensures Below(kids[k := sh]) <= Below(kids) + Footprint(sh)
  {
    var rest := kids[k := sh];
    forall o | o in Below(rest)
      ensures o in Below(kids) + Footprint(sh)
    {
      var i :| 0 <= i < |rest| && o in Footprint(rest[i]);
      if i != k {
        assert o in Footprint(kids[i]);
      }
    }
  }

  lemma {:induction false} ReplacedSeparate(kids: seq<Shape>, k: nat, sh: Shape)
    requires k < |kids| && SeparateAll(kids) && Separate(sh) && Footprint(sh) !! Below(kids)
    ensures SeparateAll(kids[k := sh])
  {
    var rest := kids[k := sh];
    forall i, j | 0 <= i < j < |rest|
      ensures Footprint(rest[i]) !! Footprint(rest[j])
    {
      if i == k {
        ApartFrom(kids, j, Footprint(sh));
      } else if j == k {
        ApartFrom(kids, i, Footprint(sh));
      }
    }
    assert forall i :: 0 <= i < |rest| ==> rest[i] == if i == k then sh else kids[i];
  }

  lemma {:induction false} ApartFrom(kids: seq<Shape>, i: nat, others: set<object>)
    requires i < |kids| && others !! Below(kids)
    ensures others !! Footprint(kids[i])
  {
    assert Footprint(kids[i]) <= Below(kids);
  }

  lemma {:induction false} OwnsReplaced(container: Node, kids: seq<Shape>, k: nat, sh: Shape)
    requires k < |kids| && SeparateAll(kids) && Separate(sh) && Footprint(sh) !! Below(kids)
    requires container !in Below(kids) && container !in Footprint(sh)
    requires Fits(sh) && forall i :: 0 <= i < |kids| ==> Fits(kids[i])
    requires Children(container, NodesOf(kids)[k := sh.node])
    ensures Owns(container, kids[k := sh])
  {
    ReplacedBelow(kids, k, sh);
    ReplacedSeparate(kids, k, sh);
  }

  lemma {:induction false} FitsWhen(sh: Shape)
    requires FitsHead(sh) && FitsAll(sh.kids)
    ensures Fits(sh)
  {}

  lemma {:induction false} FitsParts(sh: Shape)
    requires Fits(sh)
    ensures FitsHead(sh) && FitsAll(sh.kids)
  {}

  method ReplaceOwned(parent: Node, which: int, newitem: Node, ghost kids: seq<Shape>, ghost sh: Shape)
    returns (c: Node?)
    requires Owns(parent, kids)
    requires sh.node == newitem && Separate(sh) && Fits(sh)
    requires Footprint(sh) !! Below(kids) && parent !in Footprint(sh)
    modifies parent`child, NodesOf(kids)`next, NodesOf(kids)`prev, newitem`next, newitem`prev
    ensures c == Nth(NodesOf(kids), Index(which))
    ensures c == null ==> Owns(parent, kids)
    ensures c != null ==> var k := Index(which); Owns(parent, kids[k := sh]) && FitsAll([kids[k]])
  {
    hide SeparateAll, Children, Fits, FitsHead, FitsAll;
    KidsFit(kids);
    FitsParts(sh);
    NodesBelow(kids);
    assert allocated(Below(kids)) && allocated(Footprint(sh));
    c := RelinkItem(parent, which, newitem, NodesOf(kids));
    forall i | 0 <= i < |kids|
      ensures Fits(kids[i])
    {
      SiblingsApart(parent, kids, i);
      assert old(FitsHead(kids[i]) && FitsAll(kids[i].kids));
      FitsWhen(kids[i]);
    }
    assert old(FitsHead(sh) && FitsAll(sh.kids));
    FitsWhen(sh);
    if c != null {
      OwnsReplaced(parent, kids, Index(which), sh);
      FitsAlone(kids[Index(which)]);
    }
  }

  /** The shape under a new name. */
  lemma {:induction false} RenamedSeparate(sh: Shape, name: array<byte>)
    requires Separate(sh) && name !in Footprint(sh)
    ensures Separate(sh.(name := name)) && Footprint(sh.(name := name)) <= Footprint(sh) + {name}
    ensures sh.name != null ==> sh.name !in Footprint(sh.(name := name))
  {}

  /** The name of the tree is replaced by a copy of the key. */
  method Rename(newitem: Node, key: array<byte>, ghost sh: Shape) returns (ghost sh': Shape)
    requires sh.node == newitem && Separate(sh) && Fits(sh) && IsCStr(key)
    modifies newitem`name
    ensures sh' == sh.(name := newitem.name) && fresh(Some(sh'.name))
    ensures newitem.name != null && Holds(newitem.name, old(Content(key)))
    ensures Separate(sh') && Fits(sh') && Footprint(sh') <= Footprint(sh) + Some(sh'.name)
    ensures sh.name != null ==> sh.name !in Footprint(sh')
  {
    assert allocated(Footprint(sh));
    FitsParts(sh);
    var name := StrDup(key);
    newitem.name := name;
    sh' := sh.(name := name);
    RenamedSeparate(sh, name);
    assert old(FitsAll(sh.kids));
    FitsWhen(sh');
  }

  /** What is left of the old name: nobody owns it, and it was not freed. */
  ghost predicate NameLost(name: array?<byte>, kids: seq<Shape>, freed: seq<object>) {
    name != null ==> name !in Below(kids) && name !in freed
  }

  lemma {:induction false} LostName(kids: seq<Shape>, k: nat, sh: Shape, sh': Shape, freed: seq<object>)
    requires k < |kids| && Footprint(sh) !! Below(kids) && FreesExactly(freed, Footprint(kids[k]))
    requires sh.name != null ==> sh.name !in Footprint(sh')
    ensures NameLost(sh.name, kids[k := sh'], freed)
  {
    ReplacedBelow(kids, k, sh');
    PartsBelow(kids);
    if sh.name != null {
      assert sh.name in Footprint(sh);
      assert sh.name in freed ==> sh.name in (set o | o in freed);
    }
  }

  /** The child at k makes way for the new tree under its new name. */
  method ReplaceRenamed(parent: Node, k: nat, key: array<byte>, newitem: Node, ghost kids: seq<Shape>, ghost sh: Shape)
    returns (freed: seq<object>, ghost sh': Shape)
    requires Owns(parent, kids) && k < |kids| && IsCStr(key)
    requires sh.node == newitem && Separate(sh) && Fits(sh)
    requires Footprint(sh) !! Below(kids) && parent !in Footprint(sh)
    modifies parent`child, NodesOf(kids)`next, NodesOf(kids)`prev, newitem`next, newitem`prev, newitem`name
    ensures Owns(parent, kids[k := sh']) && FreesExactly(freed, Footprint(kids[k]))
    ensures sh' == sh.(name := newitem.name) && newitem.name != null && fresh(newitem.name)
    ensures Holds(newitem.name, old(Content(key))) && NameLost(sh.name, kids[k := sh'], freed)
  {
    hide Separate, SeparateAll, Fits, FitsHead;
    NodesBelow(kids);
    assert allocated(Below(kids)) && allocated(Footprint(sh));
    sh' := Rename(newitem, key, sh);
    freed := ReplaceItemInArray(parent, k, newitem, kids, sh');
    LostName(kids, k, sh, sh', freed);
  }

  /** cJSON_ReplaceItemInObject: the first child of that name makes way for the new tree, which is
      named by a copy of the key; the name the new item had before is lost. Without such a child
      nothing happens. */
  method ReplaceItemInObject(parent: Node, key: array<byte>, newitem: Node, ghost kids: seq<Shape>, ghost sh: Shape)
    returns (freed: seq<object>, ghost sh': Shape)
    requires Owns(parent, kids) && Named(NodesOf(kids)) && IsCStr(key)
    requires sh.node == newitem && Separate(sh) && Fits(sh)
    requires Footprint(sh) !! Below(kids) && parent !in Footprint(sh)
    modifies parent`child, NodesOf(kids)`next, NodesOf(kids)`prev, newitem`next, newitem`prev, newitem`name
    ensures var k := old(Find(NodesOf(kids), key));
      if k >= |kids| then Owns(parent, kids) && freed == [] && newitem.name == sh.name
      else
        && Owns(parent, kids[k := sh']) && FreesExactly(freed, Footprint(kids[k]))
        && sh' == sh.(name := newitem.name) && newitem.name != null && fresh(newitem.name)
        && Holds(newitem.name, old(Content(key))) && NameLost(sh.name, kids[k := sh'], freed)
  {
    hide Separate, SeparateAll, Fits, FitsAll, NameLost;
    KidsFit(kids);
    FitsParts(sh);
    ghost var nodes := NodesOf(kids);
    ghost var k := Find(nodes, key);
    FindIsFirst(nodes, key, 0);
    assert allocated(Names(nodes)) && allocated(Below(kids)) && allocated(Footprint(sh));
    sh', freed := sh, [];
    var found, i := SearchObject(parent, key, nodes);
    assert i == k;
    if found != null {
      freed, sh' := ReplaceRenamed(parent, i, key, newitem, kids, sh);
    }
  }

  // ---------- operations that take ownership ----------

  lemma {:induction false} AppendedKids(kids: seq<Shape>, sh: Shape)
    ensures NodesOf(kids + [sh]) == NodesOf(kids) + [sh.node]
    ensures Below(kids + [sh]) == Below(kids) + Footprint(sh)
    ensures SeparateAll(kids) && Separate(sh) && Footprint(sh) !! Below(kids) ==> SeparateAll(kids + [sh])
  {
    var all := kids + [sh];
    assert all[..|kids|] == kids && all[..|kids| + 1] == all;
    BelowNext(all, |kids|);
    if Footprint(sh) !! Below(kids) {
      forall i | 0 <= i < |kids|
        ensures Footprint(kids[i]) !! Footprint(sh)
      {
        ApartFrom(kids, i, Footprint(sh));
      }
    }
  }

  lemma {:induction false} OwnsAppended(container: Node, kids: seq<Shape>, sh: Shape)
    requires SeparateAll(kids) && Separate(sh) && Footprint(sh) !! Below(kids)
    requires container !in Below(kids) && container !in Footprint(sh)
    requires Fits(sh) && forall i :: 0 <= i < |kids| ==> Fits(kids[i])
    requires Children(container, NodesOf(kids) + [sh.node])
    ensures Owns(container, kids + [sh])
  {
    AppendedKids(kids, sh);
  }

  /** cJSON_AddItemToArray as a transfer of ownership. */
  method AddOwned(parent: Node, item: Node, ghost kids: seq<Shape>, ghost sh: Shape)
    requires Owns(parent, kids)
    requires sh.node == item && Separate(sh) && Fits(sh) && item.next == null && item.prev == null
    requires Footprint(sh) !! Below(kids) && parent !in Footprint(sh)
    modifies parent`child, Only(Nth(NodesOf(kids), |kids| - 1))`next, item`prev
    ensures Owns(parent, kids + [sh])
  {
    hide SeparateAll;
    KidsFit(kids);
    NodesBelow(kids);
    assert allocated(Below(kids)) && allocated(Footprint(sh));
    AddItemToArray(parent, item, NodesOf(kids));
    forall i | 0 <= i < |kids|
      ensures Fits(kids[i])
    {
      SiblingsApart(parent, kids, i);
      assert old(FitsHead(kids[i]) && FitsAll(kids[i].kids));
    }
    assert Fits(sh) by {
      assert old(FitsHead(sh) && FitsAll(sh.kids));
    }
    OwnsAppended(parent, kids, sh);
  }
}
