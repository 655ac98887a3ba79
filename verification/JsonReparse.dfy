/** When printing and parsing again changes nothing. */
module JsonReparse {
  import opened Bytes
  import opened CText
  import opened Reals
  import opened Doubles
  import opened NumberFormat
  import opened NumberReread
  import opened JsonTree
  import opened JsonParse
  import opened JsonRoundTrip
  import opened ParsedText
  import opened Seqs

  /** Every number comes back. */
  ghost predicate AllKept(v: Json) {
    match v
    case Num(x) => Kept(x)
    case Arr(items) => forall i :: 0 <= i < |items| ==> AllKept(items[i])
    case Obj(members) => forall i :: 0 <= i < |members| ==> AllKept(members[i].value)
    case _ => true
  }

  lemma {:induction false} ItemsSplit(items: seq<Json>)
    requires items != []
    ensures AllKept(Arr(items)) <==> AllKept(items[0]) && AllKept(Arr(items[1..]))
  {
    var rest := items[1..];
    assert forall i :: 1 <= i < |items| ==> items[i] == rest[i - 1];
    assert forall i :: 0 <= i < |rest| ==> rest[i] == items[i + 1];
  }

  lemma {:induction false} MembersSplit(members: seq<Member>)
    requires members != []
    ensures AllKept(Obj(members)) <==> AllKept(members[0].value) && AllKept(Obj(members[1..]))
  {
    var rest := members[1..];
    assert forall i :: 1 <= i < |members| ==> members[i] == rest[i - 1];
    assert forall i :: 0 <= i < |rest| ==> rest[i] == members[i + 1];
  }

  lemma {:induction false} NothingInside()
    ensures AllKept(Arr([])) && AllKept(Obj([]))
    ensures ItemsAsReread([]) == [] && MembersAsReread([]) == []
  {}

  lemma {:induction false} SameHead<T>(a: T, b: T, x: seq<T>, y: seq<T>)
    ensures [a] + x == [b] + y <==> a == b && x == y
  {
    SameFront([a], [b], x, y);
    assert [a] == [b] <==> a == b by {
      assert [a][0] == a && [b][0] == b;
    }
  }

  /** A value comes back exactly when all its numbers do. */
  lemma {:induction false} SameWhenKept(v: Json)
    ensures AsReread(v) == v <==> AllKept(v)
    decreases v, 0
  {
    match v
    case Num(x) => RereadIsSame(x);
    case Arr(items) => ItemsSameWhenKept(items);
    case Obj(members) => MembersSameWhenKept(members);
    case _ =>
  }

  lemma {:induction false} ItemsSameWhenKept(items: seq<Json>)
    ensures ItemsAsReread(items) == items <==> AllKept(Arr(items))
    decreases items, 1
  {
    hide AllKept, AsReread;
    if items == [] {
      NothingInside();
    } else {
      SameWhenKept(items[0]);
      ItemsSameWhenKept(items[1..]);
      ItemsSplit(items);
      HeadTail(items);
      SameHead(AsReread(items[0]), items[0], ItemsAsReread(items[1..]), items[1..]);
    }
  }

  lemma {:induction false} MemberSameWhenKept(m: Member)
    ensures MemberAsReread(m) == m <==> AllKept(m.value)
    decreases m, 1
  {
    SameWhenKept(m.value);
  }

  lemma {:induction false} MembersSameWhenKept(members: seq<Member>)
    ensures MembersAsReread(members) == members <==> AllKept(Obj(members))
    decreases members, 2
  {
    hide AllKept, AsReread;
    if members == [] {
      NothingInside();
    } else {
      MemberSameWhenKept(members[0]);
      MembersSameWhenKept(members[1..]);
      MembersSplit(members);
      HeadTail(members);
      SameHead(MemberAsReread(members[0]), members[0], MembersAsReread(members[1..]), members[1..]);
    }
  }

  /** Print then parse is the identity exactly on the values all of whose numbers come back. */
  lemma {:induction false} PrintParseIdentity(v: Json, fmt: bool)
    requires Proper(v)
    ensures Outside(Print(v, 0, fmt) + [NUL], 0)
    ensures Parse(Print(v, 0, fmt) + [NUL]) == Ok(v, |Print(v, 0, fmt)|) <==> AllKept(v)
  {
    hide Print, Parse, Proper, AllKept, AsReread, Outside;
    PrintParseWhole(v, fmt);
    SameWhenKept(v);
  }

  /** Whatever text was parsed, printing its value in either form and parsing again gives that value,
      with each number read back, and so the value itself exactly if all its numbers come back. */
  lemma {:induction false} Reparse(s: bytes, fmt: bool)
    requires Outside(s, 0) && Parse(s).Ok?
    ensures var v := Parse(s).value; var t := Print(v, 0, fmt) + [NUL];
      && Outside(t, 0) && Parse(t) == Ok(AsReread(v), |t| - 1)
      && (Parse(t).value == v <==> AllKept(v))
  {
    hide Print, Parse, Proper, AllKept, AsReread, Outside;
    ParsedTexts(s);
    PrintParseWhole(Parse(s).value, fmt);
    SameWhenKept(Parse(s).value);
  }

  // ---------- integers, and numbers that change ----------

  /** Every number is an integer of at most 53 bits. */
  predicate SmallIntegers(v: Json) {
    match v
    case Num(x) => x.Floor as real == x && -TWO53 <= x.Floor <= TWO53
    case Arr(items) => forall i :: 0 <= i < |items| ==> SmallIntegers(items[i])
    case Obj(members) => forall i :: 0 <= i < |members| ==> SmallIntegers(members[i].value)
    case _ => true
  }

  lemma {:induction false} SmallIntegersKept(v: Json)
    requires SmallIntegers(v)
    ensures AllKept(v)
  {
    match v
    case Num(x) => IntegersKept(x.Floor);
    case Arr(items) =>
      forall i | 0 <= i < |items| ensures AllKept(items[i]) {
        SmallIntegersKept(items[i]);
      }
    case Obj(members) =>
      forall i | 0 <= i < |members| ensures AllKept(members[i].value) {
        SmallIntegersKept(members[i].value);
      }
    case _ =>
  }

  /** Two to the 58th comes back as another integer. */
  lemma {:induction false} LargeIntegerExample(fmt: bool)
    ensures var v := Num(288_230_376_151_711_744.0); var t := Print(v, 0, fmt) + [NUL];
      Proper(v) && Outside(t, 0) && Parse(t) == Ok(Num(288_230_376_151_711_712.0), |t| - 1)
  {
    var x := 288_230_376_151_711_744.0;
    SomePowers();
    TimesOne(x);
    hide Print, Parse, Outside, Power, IsDouble;
    UnitsAreDouble(x, 1, 58);
    LargeReread();
    PrintParseWhole(Num(x), fmt);
  }

  /** One 128th has a decimal too many. */
  lemma {:induction false} FractionExample(fmt: bool)
    ensures var v := Num(0.0078125); var t := Print(v, 0, fmt) + [NUL];
      Proper(v) && Outside(t, 0) && Parse(t) != Ok(v, |t| - 1)
  {
    PowerInverse(2, -7);
    assert NatPower(2, 7) == 128;
    PowerIsNat(2, 7);
    hide Print, Parse, Outside, Power, IsDouble;
    Reciprocal(Power(2, -7), Power(2, 7));
    UnitsAreDouble(0.0078125, 1, -7);
    OneIn128();
    PrintParseIdentity(Num(0.0078125), fmt);
  }

  /** The double nearest to three tenths comes back, though its text denotes another number. */
  lemma {:induction false} TenthsExample(fmt: bool)
    ensures var v := Num(THREE_TENTHS); var t := Print(v, 0, fmt) + [NUL];
      Proper(v) && Outside(t, 0) && Parse(t) == Ok(v, |t| - 1) && Shown(THREE_TENTHS) != THREE_TENTHS
  {
    SomePowers();
    PowerInverse(2, -54);
    Reciprocal(Power(2, -54), Power(2, 54));
    hide Print, Parse, Outside, Power, IsDouble;
    UnitsAreDouble(THREE_TENTHS, 5_404_319_552_844_595, -54);
    ThreeTenthsKept();
    PrintParseIdentity(Num(THREE_TENTHS), fmt);
  }
}
