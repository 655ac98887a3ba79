/** Regrouping of concatenations. */
module Seqs {
  lemma {:induction false} Assoc<T>(a: seq<T>, b: seq<T>, c: seq<T>)
    ensures (a + b) + c == a + (b + c)
  {}

  lemma {:induction false} HeadTail<T>(a: seq<T>)
    requires a != []
    ensures a == [a[0]] + a[1..]
  {}

  /** Equal texts with fronts of equal length agree in front and behind. */
  lemma {:induction false} SameFront<T>(a: seq<T>, b: seq<T>, x: seq<T>, y: seq<T>)
    requires |a| == |b|
    ensures a + x == b + y <==> a == b && x == y
  {
    if a + x == b + y {
      assert (a + x)[..|a|] == a && (b + y)[..|b|] == b;
      assert (a + x)[|a|..] == x && (b + y)[|b|..] == y;
    }
  }

  lemma {:induction false} Single<T>(a: seq<T>)
    requires |a| == 1
    ensures a == [a[0]]
  {}

  lemma {:induction false} SliceNext<T>(a: seq<T>, p: nat, q: nat)
    requires p <= q < |a|
    ensures a[p..q + 1] == a[p..q] + [a[q]]
  {}

  lemma {:induction false} NothingBefore<T>(a: seq<T>)
    ensures [] + a == a
  {}

  lemma {:induction false} ConsTail<T>(x: T, a: seq<T>)
    ensures ([x] + a)[0] == x && ([x] + a)[1..] == a
  {}

  lemma {:induction false} Assoc4<T>(a: seq<T>, b: seq<T>, c: seq<T>, d: seq<T>)
    ensures ((a + b) + c) + d == a + (b + (c + d))
  {
    Assoc(a + b, c, d);
    Assoc(a, b, c + d);
  }
}
