/** NUL-terminated text and what the JSON parser presumes about the escapes in it. */
module CText {
  import opened Bytes

  /** The storage of a C string: positions up to the last one are readable. */
  predicate CString(s: bytes) {
    |s| > 0 && s[|s| - 1] == NUL
  }

  /** The byte at p, where text that ends early counts as terminated. */
  function Peek(s: bytes, p: nat): byte {
    if p < |s| then s[p] else NUL
  }

  // ---------- texts at positions ----------

  /** The text t stands in s at position p. */
  predicate At(s: bytes, p: nat, t: bytes)
    decreases |t|
  {
    if t == [] then p <= |s| else p < |s| && s[p] == t[0] && At(s, p + 1, t[1..])
  }

  lemma {:induction false} AtIs(s: bytes, p: nat, t: bytes)
    ensures At(s, p, t) <==> p + |t| <= |s| && s[p..p + |t|] == t
    decreases |t|
  {
    if t == [] {
      if p <= |s| {
        assert s[p..p] == t;
      }
    } else {
      AtIs(s, p + 1, t[1..]);
      if p + |t| <= |s| {
        assert s[p..p + |t|] == [s[p]] + s[p + 1..p + 1 + |t[1..]|];
        assert t == [t[0]] + t[1..];
      }
    }
  }

  lemma {:induction false} AtIndex(s: bytes, p: nat, t: bytes, i: nat)
    requires At(s, p, t) && i < |t|
    ensures p + i < |s| && s[p + i] == t[i]
    decreases |t|
  {
    if i == 0 {
    } else {
      AtIndex(s, p + 1, t[1..], i - 1);
    }
  }

  lemma {:induction false} AtSplit(s: bytes, p: nat, a: bytes, b: bytes)
    requires At(s, p, a + b)
    ensures At(s, p, a) && At(s, p + |a|, b)
    decreases |a|
  {
    if a == [] {
      assert a + b == b;
      AtIs(s, p, b);
    } else {
      assert (a + b)[1..] == a[1..] + b;
      AtSplit(s, p + 1, a[1..], b);
    }
  }

  lemma {:induction false} AtNone(s: bytes, p: nat)
    requires p <= |s|
    ensures At(s, p, [])
  {}

  lemma {:induction false} AtOne(s: bytes, p: nat)
    requires p < |s|
    ensures At(s, p, [s[p]])
  {}

  lemma {:induction false} AtSlice(s: bytes, p: nat, q: nat)
    requires p <= q <= |s|
    ensures At(s, p, s[p..q])
  {
    AtIs(s, p, s[p..q]);
  }

  lemma {:induction false} AtJoin(s: bytes, p: nat, a: bytes, b: bytes)
    requires At(s, p, a) && At(s, p + |a|, b)
    ensures At(s, p, a + b)
  {
    AtIs(s, p, a);
    AtIs(s, p + |a|, b);
    AtIs(s, p, a + b);
    if p + |a + b| <= |s| {
      assert s[p..p + |a + b|] == s[p..p + |a|] + s[p + |a|..p + |a + b|];
    }
  }

  lemma {:induction false} AtFirst(s: bytes, p: nat, t: bytes)
    requires At(s, p, t) && t != []
    ensures Peek(s, p) == t[0]
  {}

  predicate Hex4At(s: bytes, p: nat) {
    p + 4 <= |s| && IsHex(s[p]) && IsHex(s[p + 1]) && IsHex(s[p + 2]) && IsHex(s[p + 3])
  }

  function Hex4(s: bytes, p: nat): unit16
    requires Hex4At(s, p)
  {
    ((HexValue(s[p]) * 16 + HexValue(s[p + 1])) * 16 + HexValue(s[p + 2])) * 16 + HexValue(s[p + 3])
  }

  // ---------- complete escapes ----------

  /** The escape sequence at p ends before the terminator. */
  predicate EscapeComplete(s: bytes, p: nat) {
    Peek(s, p + 1) != NUL && (Peek(s, p + 1) == LOWER_U ==> Hex4At(s, p + 2))
  }

  /** From p, outside a string literal, the text is terminated and every escape of every later
      string literal is complete. */
  predicate Outside(s: bytes, p: nat)
    decreases |s| - p
  {
    && p < |s|
    && (if s[p] == NUL then true
        else if s[p] == QUOTE then Inside(s, p + 1)
        else Outside(s, p + 1))
  }

  /** The same from a position inside a string literal. */
  predicate Inside(s: bytes, p: nat)
    decreases |s| - p
  {
    && p < |s|
    && (if s[p] == NUL then true
        else if s[p] == QUOTE then Outside(s, p + 1)
        else if s[p] == BACKSLASH then EscapeComplete(s, p) && Inside(s, p + 2)
        else Inside(s, p + 1))
  }

  /** skip() of cjson.c: past blanks and control characters. */
  function Skip(s: bytes, p: nat): (q: nat)
    ensures p <= q
    ensures Peek(s, q) == NUL || Peek(s, q) > SPACE
    ensures Outside(s, p) ==> Outside(s, q)
    decreases |s| - p
  {
    if NUL < Peek(s, p) <= SPACE then Skip(s, p + 1) else p
  }

  /** Text without quotes does not change whether one is outside a literal. */
  lemma {:induction false} OutsideMoves(s: bytes, p: nat, q: nat)
    requires p <= q && Outside(s, p)
    requires forall i :: p <= i < q ==> Peek(s, i) != QUOTE && Peek(s, i) != NUL
    ensures Outside(s, q)
    decreases q - p
  {
    if p == q {
    } else {
      assert Peek(s, p) != QUOTE && Peek(s, p) != NUL;
      OutsideMoves(s, p + 1, q);
    }
  }

  /** Four hexadecimal digits do not end a literal. */
  lemma {:induction false} InsideHex4(s: bytes, p: nat)
    requires Hex4At(s, p)
    ensures Inside(s, p) == Inside(s, p + 4)
  {
    assert Inside(s, p + 2) == Inside(s, p + 3) == Inside(s, p + 4);
  }

  /** t is made of plain bytes and complete escapes, so it is harmless in either state. */
  predicate Tame(t: bytes) {
    if t == [] then true
    else if t[0] == NUL then false
    else if t[0] != BACKSLASH then Tame(t[1..])
    else EscapeComplete(t, 0) && Tame(t[2..])
  }

  lemma {:induction false} EscapeStaysComplete(a: bytes, b: bytes)
    requires a != [] && EscapeComplete(a, 0)
    ensures EscapeComplete(a + b, 0)
  {}

  lemma {:induction false} TameConcat(a: bytes, b: bytes)
    requires Tame(a) && Tame(b)
    ensures Tame(a + b)
    decreases |a|
  {
    if a == [] {
      assert a + b == b;
    } else if a[0] != BACKSLASH {
      TameConcat(a[1..], b);
      assert (a + b)[1..] == a[1..] + b;
    } else {
      TameConcat(a[2..], b);
      assert (a + b)[2..] == a[2..] + b;
      EscapeStaysComplete(a, b);
    }
  }

  lemma {:induction false} TamePlain(t: bytes)
    requires forall i :: 0 <= i < |t| ==> t[i] != BACKSLASH && t[i] != NUL
    ensures Tame(t)
    decreases |t|
  {
    if t == [] {
    } else {
      TamePlain(t[1..]);
    }
  }

  /** Before tame text, both readings are as good as after it. */
  lemma {:induction false} TameBefore(s: bytes, p: nat, t: bytes)
    requires At(s, p, t) && Tame(t)
    requires Outside(s, p + |t|) && Inside(s, p + |t|)
    ensures Outside(s, p) && Inside(s, p)
    decreases |t|
  {
    if t == [] {
    } else {
      if t[0] != BACKSLASH {
        TameBefore(s, p + 1, t[1..]);
      } else {
        AtIs(s, p, t);
        assert s[p + 1] == s[p..p + |t|][1];
        AtIs(s, p + 2, t[2..]);
        assert s[p + 2..p + |t|] == s[p..p + |t|][2..];
        TameBefore(s, p + 2, t[2..]);
        if t[1] == LOWER_U {
          var u := s[p..p + |t|];
          assert s[p + 2] == u[2] && s[p + 3] == u[3] && s[p + 4] == u[4] && s[p + 5] == u[5];
        }
      }
    }
  }

  /** A text stands at the start of its C string. */
  lemma {:induction false} AtStart(t: bytes)
    ensures At(t + [NUL], 0, t) && Peek(t + [NUL], |t|) == NUL
  {
    AtIs(t + [NUL], 0, t);
  }

  /** A C string whose text is tame has only complete escapes. */
  lemma {:induction false} TameText(t: bytes)
    requires Tame(t)
    ensures CString(t + [NUL]) && Outside(t + [NUL], 0) && Inside(t + [NUL], 0)
  {
    AtStart(t);
    TameBefore(t + [NUL], 0, t);
  }
}
