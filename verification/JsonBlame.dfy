/** The position that the parser blames: what is before it can be completed, and no text that goes on like
    this one is accepted. */
module JsonBlame {
  import opened Bytes
  import opened CText
  import opened Seqs
  import opened JsonString
  import opened JsonNumber
  import opened NumberSyntax
  import opened JsonDouble
  import opened JsonTree
  import opened JsonParse
  import opened JsonRoundTrip
  import opened JsonSyntax
  import opened JsonAccepts

  // ---------- the parser looks only so far ahead ----------

  /** Both texts read the same up to k. */
  predicate Alike(s: bytes, t: bytes, k: nat) {
    forall i :: 0 <= i < k ==> Peek(s, i) == Peek(t, i)
  }

  /** From the position where it stops, the parser looks at the character there, behind a point at the next
      one, and at the five of a word. */
  function Look(c: byte): nat {
    if c == WordText(Null)[0] || c == WordText(Bool(true))[0] || c == WordText(Bool(false))[0] then 5
    else if c == DOT then 2
    else 1
  }

  function Stop<T>(r: Parsed<T>): nat {
    if r.Ok? then r.next else r.at
  }

  function Reach<T>(s: bytes, r: Parsed<T>): nat {
    Stop(r) + Look(Peek(s, Stop(r)))
  }

  lemma {:induction false} AlikeLess(s: bytes, t: bytes, k: nat, j: nat)
    requires Alike(s, t, k) && j <= k
    ensures Alike(s, t, j)
  {}

  lemma {:induction false} SkipAlike(s: bytes, t: bytes, p: nat)
    requires Alike(s, t, Skip(s, p) + 1)
    ensures Skip(t, p) == Skip(s, p)
    decreases |s| - p
  {
    assert Peek(s, p) == Peek(t, p);
    if NUL < Peek(s, p) <= SPACE {
      SkipAlike(s, t, p + 1);
    }
  }

  lemma {:induction false} RunAlike(s: bytes, t: bytes, p: nat)
    requires Alike(s, t, RunEnd(s, p) + 1)
    ensures RunEnd(t, p) == RunEnd(s, p)
    decreases |s| - p
  {
    assert Peek(s, p) == Peek(t, p);
    if IsDigit(Peek(s, p)) {
      RunAlike(s, t, p + 1);
    }
  }

  lemma {:induction false} SliceAlike(s: bytes, t: bytes, p: nat, q: nat)
    requires p <= q <= |s| && q <= |t| && Alike(s, t, q)
    ensures s[p..q] == t[p..q]
  {
    forall i | 0 <= i < q - p
      ensures s[p..q][i] == t[p..q][i]
    {
      assert Peek(s, p + i) == Peek(t, p + i);
    }
  }

  lemma {:induction false} IntAlike(s: bytes, t: bytes, p: nat)
    requires p <= |s| && p <= |t| && Alike(s, t, IntRun(s, p).to + 1)
    ensures IntRun(t, p) == IntRun(s, p)
  {
    var r := IntRun(s, p);
    assert Peek(s, p) == Peek(t, p);
    if r.from < r.to {
      RunAlike(s, t, r.from);
    }
  }

  lemma {:induction false} FracAlike(s: bytes, t: bytes, p: nat)
    requires p <= |s| && p <= |t| && Alike(s, t, FracRun(s, p).to + Look(Peek(s, FracRun(s, p).to)))
    ensures FracRun(t, p) == FracRun(s, p)
  {
    assert Peek(s, p) == Peek(t, p);
    if Peek(s, p) == DOT {
      assert Peek(s, p + 1) == Peek(t, p + 1);
      if IsDigit(Peek(s, p + 1)) {
        AlikeLess(s, t, FracRun(s, p).to + Look(Peek(s, FracRun(s, p).to)), FracRun(s, p).to + 1);
        RunAlike(s, t, p + 1);
      }
    }
  }

  lemma {:induction false} ExpAlike(s: bytes, t: bytes, p: nat)
    requires p <= |s| && p <= |t| && Alike(s, t, ExpRun(s, p).to + 1)
    ensures ExpRun(t, p) == ExpRun(s, p) && ExpNegative(t, p) == ExpNegative(s, p)
  {
    assert Peek(s, p) == Peek(t, p);
    if Peek(s, p) == LOWER_E || Peek(s, p) == UPPER_E {
      assert Peek(s, p + 1) == Peek(t, p + 1);
      RunAlike(s, t, ExpRun(s, p).from);
    }
  }

  lemma {:induction false} ExpMarker(s: bytes, p: nat)
    requires p <= |s|
    ensures p < ExpRun(s, p).to ==> Look(Peek(s, p)) == 1
  {}

  lemma {:induction false} NumberAlike(s: bytes, t: bytes, p: nat)
    requires p <= |s| && p <= |t| && Alike(s, t, ReadNumber(s, p).next + Look(Peek(s, ReadNumber(s, p).next)))
    ensures ReadNumber(t, p) == ReadNumber(s, p)
  {
    hide Alike, IntRun, FracRun, ExpRun, ExpNegative, DigitsValue;
    var k := ReadNumber(s, p).next + Look(Peek(s, ReadNumber(s, p).next));
    EndsInOrder(s, p);
    var i := IntRun(s, p);
    var f := FracRun(s, i.to);
    var e := ExpRun(s, f.to);
    AlikeLess(s, t, k, i.to + 1);
    IntAlike(s, t, p);
    ExpMarker(s, f.to);
    AlikeLess(s, t, k, f.to + Look(Peek(s, f.to)));
    FracAlike(s, t, i.to);
    AlikeLess(s, t, k, e.to + 1);
    ExpAlike(s, t, f.to);
    AlikeLess(s, t, k, i.to);
    SliceAlike(s, t, i.from, i.to);
    AlikeLess(s, t, k, f.to);
    SliceAlike(s, t, f.from, f.to);
    AlikeLess(s, t, k, e.to);
    SliceAlike(s, t, e.from, e.to);
    AlikeLess(s, t, k, p + 1);
    FirstAlike(s, t, p);
  }

  lemma {:induction false} FirstAlike(s: bytes, t: bytes, p: nat)
    requires Alike(s, t, p + 1)
    ensures Peek(s, p) == Peek(t, p)
  {}

  lemma {:induction false} TurnAlike(s: bytes, t: bytes, p: nat)
    requires Inside(s, p) && Inside(t, p) && Alike(s, t, BodyEnd(s, p) + 1) && s[p] != QUOTE && s[p] != NUL
    ensures exists q, x :: p < q && Turn(s, p, q, x) && Turn(t, p, q, x)
  {
    BodyTurn(s, p);
    FirstAlike(s, t, p);
    BodyTurn(t, p);
    if s[p] != BACKSLASH {
      assert Turn(s, p, p + 1, Raw(s[p])) && Turn(t, p, p + 1, Raw(s[p]));
    } else {
      assert Peek(s, p + 1) == Peek(t, p + 1);
      if s[p + 1] != LOWER_U {
        assert Turn(s, p, p + 2, Raw(Unescape(s[p + 1]))) && Turn(t, p, p + 2, Raw(Unescape(s[p + 1])));
      } else {
        assert p + 6 <= BodyEnd(s, p);
        assert Peek(s, p + 2) == Peek(t, p + 2) && Peek(s, p + 3) == Peek(t, p + 3);
        assert Peek(s, p + 4) == Peek(t, p + 4) && Peek(s, p + 5) == Peek(t, p + 5);
        assert Hex4(s, p + 2) == Hex4(t, p + 2);
        assert Turn(s, p, p + 6, Unit(Hex4(s, p + 2))) && Turn(t, p, p + 6, Unit(Hex4(s, p + 2)));
      }
    }
  }

  lemma {:induction false} BodyStops(s: bytes, p: nat)
    requires Inside(s, p)
    ensures p < |s| && p <= BodyEnd(s, p)
  {}

  lemma {:induction false} BodyAlike(s: bytes, t: bytes, p: nat)
    requires Inside(s, p) && Inside(t, p) && Alike(s, t, BodyEnd(s, p) + 1)
    ensures BodyEnd(t, p) == BodyEnd(s, p) && Tokens(t, p) == Tokens(s, p)
    decreases |s| - p
  {
    hide Tokens, BodyEnd, Alike, Inside;
    BodyStops(s, p);
    if s[p] == QUOTE || s[p] == NUL {
      BodyStops(t, p);
      BodyDone(s, p);
      FirstAlike(s, t, p);
      BodyDone(t, p);
    } else {
      TurnAlike(s, t, p);
      var q, x :| p < q && Turn(s, p, q, x) && Turn(t, p, q, x);
      BodyAlike(s, t, q);
    }
  }

  lemma {:induction false} StringAlike(s: bytes, t: bytes, p: nat)
    requires Outside(s, p) && Outside(t, p) && Alike(s, t, Reach(s, ParseString(s, p)))
    ensures ParseString(t, p) == ParseString(s, p)
  {
    hide Alike, Outside, BodyEnd, Tokens, Meaning;
    var k := Reach(s, ParseString(s, p));
    AlikeLess(s, t, k, p + 1);
    FirstAlike(s, t, p);
    if Peek(s, p) == QUOTE {
      QuoteOpens(s, p);
      QuoteOpens(t, p);
      var e := BodyEnd(s, p + 1);
      AlikeLess(s, t, k, e + 1);
      BodyAlike(s, t, p + 1);
      FirstAlike(s, t, e);
    }
  }

  lemma {:induction false} QuoteOpens(s: bytes, p: nat)
    requires Outside(s, p) && Peek(s, p) == QUOTE
    ensures Inside(s, p + 1)
  {}

  lemma {:induction false} AtAlike(s: bytes, t: bytes, p: nat, u: bytes)
    requires At(s, p, u) && Alike(s, t, p + |u|) && forall i :: 0 <= i < |u| ==> u[i] != NUL
    requires p < |t|
    ensures At(t, p, u)
    decreases |u|
  {
    if u == [] {
    } else {
      FirstAlike(s, t, p);
      assert Peek(t, p) == u[0];
      if |u| > 1 {
        AtIndex(s, p, u, 1);
        assert Peek(s, p + 1) == Peek(t, p + 1) == u[1];
        AtAlike(s, t, p + 1, u[1..]);
      } else {
        assert u[1..] == [];
      }
    }
  }

  lemma {:induction false} AlikeBack(s: bytes, t: bytes, k: nat)
    requires Alike(s, t, k)
    ensures Alike(t, s, k)
  {}

  lemma {:induction false} WordAlike(s: bytes, t: bytes, p: nat, v: Json)
    requires p < |s| && p < |t| && Alike(s, t, p + 5) && (v.Null? || v.Bool?)
    ensures At(s, p, WordText(v)) <==> At(t, p, WordText(v))
  {
    hide At, Alike;
    var u := WordText(v);
    AlikeLess(s, t, p + 5, p + |u|);
    AlikeBack(s, t, p + |u|);
    if At(s, p, u) {
      AtAlike(s, t, p, u);
    }
    if At(t, p, u) {
      AtAlike(t, s, p, u);
    }
  }

  lemma {:induction false} NotWord(s: bytes, p: nat, v: Json)
    requires (v.Null? || v.Bool?) && Peek(s, p) != WordText(v)[0]
    ensures !At(s, p, WordText(v))
  {
    if At(s, p, WordText(v)) {
      AtFirst(s, p, WordText(v));
    }
  }

  lemma {:induction false} FewWords(v: Json)
    requires v.Null? || v.Bool?
    ensures v == Null || v == Bool(true) || v == Bool(false)
  {}

  /** Whether a word is there can be seen from five characters, or from one if no word begins with it. */
  lemma {:induction false} AnyWordAlike(s: bytes, t: bytes, p: nat, v: Json)
    requires p < |s| && p < |t| && Alike(s, t, p + Look(Peek(s, p))) && (v.Null? || v.Bool?)
    ensures At(s, p, WordText(v)) <==> At(t, p, WordText(v))
  {
    FewWords(v);
    if Look(Peek(s, p)) == 5 {
      WordAlike(s, t, p, v);
    } else {
      NotWord(s, p, v);
      assert Peek(s, p) == Peek(t, p);
      NotWord(t, p, v);
    }
  }

  /** And so can whether a value begins. */
  lemma {:induction false} BeginsAlike(s: bytes, t: bytes, p: nat)
    requires p < |s| && p < |t| && Alike(s, t, p + Look(Peek(s, p)))
    ensures Begins(s, p) <==> Begins(t, p)
  {
    hide At, WordText;
    AnyWordAlike(s, t, p, Null);
    AnyWordAlike(s, t, p, Bool(true));
    AnyWordAlike(s, t, p, Bool(false));
    assert Peek(s, p) == Peek(t, p);
  }

  lemma {:induction false} NothingBegins(s: bytes, p: nat)
    requires Outside(s, p) && !Begins(s, p)
    ensures ParseValue(s, p) == Fail(p)
  {
    hide At, Outside;
    assert WordText(Null) == NULL_TEXT && WordText(Bool(true)) == TRUE_TEXT && WordText(Bool(false)) == FALSE_TEXT;
  }

  lemma {:induction false} WordsAlike(s: bytes, t: bytes, p: nat, v: Json)
    requires Outside(s, p) && Outside(t, p) && (v.Null? || v.Bool?) && At(s, p, WordText(v))
    requires Alike(s, t, Reach(s, ParseValue(s, p)))
    ensures ParseValue(t, p) == ParseValue(s, p)
  {
    hide At, Alike, ParseValue;
    WordReads(v, s, p);
    AlikeLess(s, t, Reach(s, ParseValue(s, p)), p + |WordText(v)|);
    OutsideBefore(t, p);
    AtAlike(s, t, p, WordText(v));
    WordReads(v, t, p);
  }

  lemma {:induction false} OutsideBefore(s: bytes, p: nat)
    requires Outside(s, p)
    ensures p < |s|
  {}

  lemma {:induction false} NumbersAlike(s: bytes, t: bytes, p: nat)
    requires Outside(s, p) && Outside(t, p) && (Peek(s, p) == MINUS || IsDigit(Peek(s, p)))
    requires Alike(s, t, Reach(s, ParseValue(s, p)))
    ensures ParseValue(t, p) == ParseValue(s, p)
  {
    hide Alike, ParseValue, ReadNumber, Outside, DoubleOf;
    OutsideBefore(s, p);
    OutsideBefore(t, p);
    NumberParses(s, p);
    NumberAlike(s, t, p);
    AlikeLess(s, t, Reach(s, ParseValue(s, p)), p + 1);
    FirstAlike(s, t, p);
    NumberParses(t, p);
  }

  lemma {:induction false} StringsAlike(s: bytes, t: bytes, p: nat)
    requires Outside(s, p) && Outside(t, p) && Peek(s, p) == QUOTE
    requires Alike(s, t, Reach(s, ParseValue(s, p)))
    ensures ParseValue(t, p) == ParseValue(s, p)
  {
    hide Alike, ParseValue, ParseString, Outside;
    StringParses(s, p);
    StringAlike(s, t, p);
    AlikeLess(s, t, Reach(s, ParseValue(s, p)), p + 1);
    FirstAlike(s, t, p);
    StringParses(t, p);
  }

  /** Two texts that are alike as far as the parser looks into one of them read the same there. */
  lemma {:induction false} ValueAlike(s: bytes, t: bytes, p: nat)
    requires Outside(s, p) && Outside(t, p) && Alike(s, t, Reach(s, ParseValue(s, p)))
    ensures ParseValue(t, p) == ParseValue(s, p)
    decreases |s| - p, 1
  {
    hide At, Alike, ParseValue, Outside, WordText, IsDigit;
    if Peek(s, p) == QUOTE {
      StringsAlike(s, t, p);
    } else if Peek(s, p) == MINUS || IsDigit(Peek(s, p)) {
      NumbersAlike(s, t, p);
    } else if Peek(s, p) == LBRACKET {
      ArrayAlike(s, t, p);
    } else if Peek(s, p) == LBRACE {
      ObjectAlike(s, t, p);
    } else if Begins(s, p) {
      var v: Json :| (v.Null? || v.Bool?) && At(s, p, WordText(v));
      WordsAlike(s, t, p, v);
    } else {
      OutsideBefore(s, p);
      OutsideBefore(t, p);
      NothingBegins(s, p);
      BeginsAlike(s, t, p);
      NothingBegins(t, p);
    }
  }

  /** Over blanks the parser looks further. */
  lemma {:induction false} SkipLook(s: bytes, p: nat)
    ensures p + Look(Peek(s, p)) <= Skip(s, p) + Look(Peek(s, Skip(s, p)))
    decreases |s| - p
  {
    if NUL < Peek(s, p) <= SPACE {
      SkipLook(s, p + 1);
    }
  }

  lemma {:induction false} ItemBeyond(s: bytes, p: nat)
    requires Outside(s, p)
    ensures Skip(s, p) + 1 <= Reach(s, ParseItem(s, p)) && Outside(s, Skip(s, p)) && Skip(s, p) < |s|
  {
    hide Skip, ParseValue;
    SkipOutside(s, p);
    OutsideBefore(s, Skip(s, p));
  }

  lemma {:induction false} ItemAlike(s: bytes, t: bytes, p: nat)
    requires Outside(s, p) && Outside(t, p) && Alike(s, t, Reach(s, ParseItem(s, p)))
    ensures ParseItem(t, p) == ParseItem(s, p)
    decreases |s| - p, 2
  {
    hide Alike, Skip, ParseValue, Outside;
    ItemBeyond(s, p);
    AlikeLess(s, t, Reach(s, ParseItem(s, p)), Skip(s, p) + 1);
    SkipAlike(s, t, p);
    ItemBeyond(t, p);
    ValueAlike(s, t, Skip(s, p));
  }

  lemma {:induction false} ItemsAlike(s: bytes, t: bytes, p: nat)
    requires Outside(s, p) && Outside(t, p) && Alike(s, t, Reach(s, ParseItems(s, p)))
    ensures ParseItems(t, p) == ParseItems(s, p)
    decreases |s| - p, 3
  {
    hide Alike, Skip, ParseItem, ParseItems, Outside;
    var k := Reach(s, ParseItems(s, p));
    ItemsGive(s, p);
    ItemsGive(t, p);
    var v := ParseItem(s, p);
    if v.Fail? {
      ItemAlike(s, t, p);
    } else {
      var q := Skip(s, v.next);
      SkipLook(s, v.next);
      AlikeLess(s, t, k, Reach(s, v));
      ItemAlike(s, t, p);
      AlikeLess(s, t, k, q + 1);
      SkipAlike(s, t, v.next);
      FirstAlike(s, t, q);
      if Peek(s, q) == COMMA {
        ItemsAlike(s, t, q + 1);
      }
    }
  }

  lemma {:induction false} ItemsBeyond(s: bytes, p: nat)
    requires Outside(s, p)
    ensures Skip(s, p) + 1 <= Reach(s, ParseItems(s, p))
  {
    hide Skip, ParseItem, ParseItems, Outside;
    ItemsGive(s, p);
    ItemBeyond(s, p);
    SkipLook(s, Stop(ParseItem(s, p)));
  }

  lemma {:induction false} ArrayAlike(s: bytes, t: bytes, p: nat)
    requires Outside(s, p) && Outside(t, p) && Peek(s, p) == LBRACKET && Alike(s, t, Reach(s, ParseValue(s, p)))
    ensures ParseValue(t, p) == ParseValue(s, p)
    decreases |s| - p, 0
  {
    hide Alike, Skip, ParseItems, ParseValue, Outside;
    var k := Reach(s, ParseValue(s, p));
    ArrayGives(s, p);
    AlikeLess(s, t, k, p + 1);
    FirstAlike(s, t, p);
    ArrayGives(t, p);
    var q := Skip(s, p + 1);
    ItemsBeyond(s, p + 1);
    AlikeLess(s, t, k, q + 1);
    SkipAlike(s, t, p + 1);
    FirstAlike(s, t, q);
    if Peek(s, q) != RBRACKET {
      ItemsAlike(s, t, p + 1);
    }
  }

  lemma {:induction false} StringBeyond(s: bytes, p: nat)
    requires Outside(s, p)
    ensures p + 1 <= Reach(s, ParseString(s, p))
  {}

  lemma {:induction false} MemberBeyond(s: bytes, p: nat)
    requires Outside(s, p)
    ensures Skip(s, p) + 1 <= Reach(s, ParseMember(s, p))
  {
    hide Skip, ParseItem, ParseMember, ParseString, Outside;
    MemberGives(s, p);
    StringBeyond(s, Skip(s, p));
  }

  lemma {:induction false} MemberAlike(s: bytes, t: bytes, p: nat)
    requires Outside(s, p) && Outside(t, p) && Alike(s, t, Reach(s, ParseMember(s, p)))
    ensures ParseMember(t, p) == ParseMember(s, p)
    decreases |s| - p, 2
  {
    hide Alike, Skip, ParseItem, ParseMember, ParseString, Outside;
    var k := Reach(s, ParseMember(s, p));
    MemberGives(s, p);
    MemberGives(t, p);
    MemberBeyond(s, p);
    var q := Skip(s, p);
    AlikeLess(s, t, k, q + 1);
    SkipAlike(s, t, p);
    var n := ParseString(s, q);
    SkipLook(s, Stop(n));
    AlikeLess(s, t, k, Reach(s, n));
    StringAlike(s, t, q);
    if n.Ok? {
      var c := Skip(s, n.next);
      AlikeLess(s, t, k, c + 1);
      SkipAlike(s, t, n.next);
      FirstAlike(s, t, c);
      if Peek(s, c) == COLON {
        ItemAlike(s, t, c + 1);
      }
    }
  }

  lemma {:induction false} MembersAlike(s: bytes, t: bytes, p: nat)
    requires Outside(s, p) && Outside(t, p) && Alike(s, t, Reach(s, ParseMembers(s, p)))
    ensures ParseMembers(t, p) == ParseMembers(s, p)
    decreases |s| - p, 3
  {
    hide Alike, Skip, ParseMember, ParseMembers, Outside;
    var k := Reach(s, ParseMembers(s, p));
    MembersGive(s, p);
    MembersGive(t, p);
    var m := ParseMember(s, p);
    if m.Fail? {
      MemberAlike(s, t, p);
    } else {
      var q := Skip(s, m.next);
      SkipLook(s, m.next);
      AlikeLess(s, t, k, Reach(s, m));
      MemberAlike(s, t, p);
      AlikeLess(s, t, k, q + 1);
      SkipAlike(s, t, m.next);
      FirstAlike(s, t, q);
      if Peek(s, q) == COMMA {
        MembersAlike(s, t, q + 1);
      }
    }
  }

  lemma {:induction false} MembersBeyond(s: bytes, p: nat)
    requires Outside(s, p)
    ensures Skip(s, p) + 1 <= Reach(s, ParseMembers(s, p))
  {
    hide Skip, ParseMember, ParseMembers, Outside;
    MembersGive(s, p);
    MemberBeyond(s, p);
    SkipLook(s, Stop(ParseMember(s, p)));
  }

  lemma {:induction false} ObjectAlike(s: bytes, t: bytes, p: nat)
    requires Outside(s, p) && Outside(t, p) && Peek(s, p) == LBRACE && Alike(s, t, Reach(s, ParseValue(s, p)))
    ensures ParseValue(t, p) == ParseValue(s, p)
    decreases |s| - p, 0
  {
    hide Alike, Skip, ParseMembers, ParseValue, Outside;
    var k := Reach(s, ParseValue(s, p));
    ObjectGives(s, p);
    AlikeLess(s, t, k, p + 1);
    FirstAlike(s, t, p);
    ObjectGives(t, p);
    var q := Skip(s, p + 1);
    MembersBeyond(s, p + 1);
    AlikeLess(s, t, k, q + 1);
    SkipAlike(s, t, p + 1);
    FirstAlike(s, t, q);
    if Peek(s, q) != RBRACE {
      MembersAlike(s, t, p + 1);
    }
  }

  // ---------- what is before the blamed position can be completed ----------

  /** u begins with what stands in s from p up to at. */
  predicate Starts(u: bytes, s: bytes, p: nat, at: nat) {
    p <= at <= |s| && at - p <= |u| && s[p..at] == u[..at - p]
  }

  lemma {:induction false} StartsNone(u: bytes, s: bytes, p: nat)
    requires p <= |s|
    ensures Starts(u, s, p, p)
  {}

  lemma {:induction false} StartsMore(u: bytes, more: bytes, s: bytes, p: nat, at: nat)
    requires Starts(u, s, p, at)
    ensures Starts(u + more, s, p, at)
  {
    assert (u + more)[..at - p] == u[..at - p];
  }

  lemma {:induction false} StartsBehind(u: bytes, more: bytes, s: bytes, p: nat, at: nat)
    requires At(s, p, u) && Starts(more, s, p + |u|, at)
    ensures Starts(u + more, s, p, at)
  {
    AtIs(s, p, u);
    assert s[p..at] == s[p..p + |u|] + s[p + |u|..at];
    assert (u + more)[..at - p] == u + more[..at - p - |u|];
  }

  lemma {:induction false} StartsWhole(u: bytes, s: bytes, p: nat)
    requires At(s, p, u)
    ensures Starts(u, s, p, p + |u|)
  {
    AtIs(s, p, u);
  }

  /** A text of JSON that begins with what stands from p up to at. */
  predicate Completes(d: Doc, s: bytes, p: nat, at: nat) {
    IsDoc(d) && Starts(DocText(d), s, p, at)
  }

  const ANY: Doc := Word(Null)

  predicate ItemCompletes(i: Item, s: bytes, p: nat, at: nat) {
    IsItem(i) && Starts(ItemText(i), s, p, at)
  }

  predicate ItemsComplete(items: seq<Item>, s: bytes, p: nat, at: nat) {
    items != [] && AreItems(items) && Starts(ItemsText(items), s, p, at)
  }

  lemma {:induction false} ItemCompleted(d: Doc, s: bytes, p: nat, at: nat) returns (i: Item)
    requires p <= |s| && Completes(d, s, Skip(s, p), at)
    ensures ItemCompletes(i, s, p, at)
  {
    hide At, Blank, Skip, IsDoc, DocText, Starts;
    SkipStands(s, p);
    i := Item(s[p..Skip(s, p)], d, []);
    StartsMore(DocText(d), [], s, Skip(s, p), at);
    StartsBehind(i.before, DocText(d) + [], s, p, at);
    NoBlanks();
  }

  lemma {:induction false} NoBlanks()
    ensures Blank([])
  {}

  /** A value that was read, up to the character behind its blanks; a literal without its quote gets one. */
  lemma {:induction false} ItemRead(s: bytes, p: nat) returns (i: Item)
    requires Outside(s, p) && ParseItem(s, p).Ok?
    ensures ItemCompletes(i, s, p, Skip(s, ParseItem(s, p).next))
  {
    hide At, Blank, Skip, IsDoc, DocText, Starts, ParseValue, Outside, Closed;
    SkipOutside(s, p);
    OutsideBefore(s, p);
    var q := Skip(s, p);
    if Closed(s, q) {
      var d := ValueStands(s, q);
      i := ItemJoins(d, s, p, q, ParseValue(s, q).next);
      StartsWhole(ItemText(i), s, p);
    } else {
      var d := UnclosedCompleted(s, q);
      i := ItemCompleted(d, s, p, Skip(s, ParseValue(s, q).next));
    }
  }

  lemma {:induction false} LiteralCompleted(s: bytes, p: nat) returns (xs: seq<Piece>)
    requires Outside(s, p) && Peek(s, p) == QUOTE && !Closed(s, p)
    ensures ArePieces(xs) && ParseString(s, p).Ok? && Peek(s, ParseString(s, p).next) == NUL
    ensures Starts(LiteralText(xs), s, p, ParseString(s, p).next)
  {
    hide At, BodyText, BodyTokens, Meaning, BodyEnd, ArePieces, Starts;
    xs := QuotedStands(s, p);
    StartsWhole([QUOTE] + BodyText(xs), s, p);
    StartsMore([QUOTE] + BodyText(xs), [QUOTE], s, p, p + 1 + |BodyText(xs)|);
    Assoc([QUOTE], BodyText(xs), [QUOTE]);
  }

  lemma {:induction false} SkipStays(s: bytes, p: nat)
    requires Peek(s, p) == NUL
    ensures Skip(s, p) == p
  {}

  lemma {:induction false} UnclosedCompleted(s: bytes, p: nat) returns (d: Doc)
    requires Outside(s, p) && !Closed(s, p)
    ensures ParseValue(s, p).Ok? && Completes(d, s, p, Skip(s, ParseValue(s, p).next))
  {
    hide Skip, ArePieces, Starts, ParseValue, ParseString, LiteralText;
    var xs := LiteralCompleted(s, p);
    StringParses(s, p);
    SkipStays(s, ParseString(s, p).next);
    d := Literal(xs);
  }

  /** Where a value is refused, what is before the blamed position begins a text of JSON. */
  lemma {:induction false} ValueCompleted(s: bytes, p: nat) returns (d: Doc)
    requires Outside(s, p) && ParseValue(s, p).Fail?
    ensures Completes(d, s, p, ParseValue(s, p).at)
    decreases |s| - p, 1
  {
    hide At, Skip, ParseItems, ParseMembers, ParseValue, Outside, Starts, AreItems, ArePairs, ItemsText, PairsText;
    hide WordText, IsDigit;
    OutsideBefore(s, p);
    if Peek(s, p) == LBRACKET {
      ArrayGives(s, p);
      var items := ItemsCompleted(s, p + 1);
      d := Items([], items);
      AtOne(s, p);
      StartsMore(ItemsText(items), [RBRACKET], s, p + 1, ParseValue(s, p).at);
      StartsBehind([LBRACKET], ItemsText(items) + [RBRACKET], s, p, ParseValue(s, p).at);
      FullDoc(items);
    } else if Peek(s, p) == LBRACE {
      ObjectGives(s, p);
      var pairs := PairsCompleted(s, p + 1);
      d := Pairs([], pairs);
      AtOne(s, p);
      StartsMore(PairsText(pairs), [RBRACE], s, p + 1, ParseValue(s, p).at);
      StartsBehind([LBRACE], PairsText(pairs) + [RBRACE], s, p, ParseValue(s, p).at);
      FullObject(pairs);
    } else {
      RefusedAtOnce(s, p);
      d := ANY;
      StartsNone(DocText(d), s, p);
    }
  }

  /** Outside containers the blamed position is that of the value. */
  lemma {:induction false} RefusedAtOnce(s: bytes, p: nat)
    requires Outside(s, p) && ParseValue(s, p).Fail? && Peek(s, p) != LBRACKET && Peek(s, p) != LBRACE
    ensures ParseValue(s, p).at == p
  {
    hide At, Outside;
  }

  lemma {:induction false} ItemRefused(s: bytes, p: nat) returns (i: Item)
    requires Outside(s, p) && ParseItem(s, p).Fail?
    ensures ItemCompletes(i, s, p, ParseItem(s, p).at)
    decreases |s| - p, 2
  {
    hide Skip, ParseValue, Outside, Completes;
    SkipOutside(s, p);
    OutsideBefore(s, p);
    OutsideBefore(s, Skip(s, p));
    var d := ValueCompleted(s, Skip(s, p));
    i := ItemCompleted(d, s, p, ParseItem(s, p).at);
  }

  lemma {:induction false} ItemsCompleted(s: bytes, p: nat) returns (items: seq<Item>)
    requires Outside(s, p) && ParseItems(s, p).Fail?
    ensures ItemsComplete(items, s, p, ParseItems(s, p).at)
    decreases |s| - p, 3
  {
    hide Skip, ParseItem, ParseItems, Outside, Starts, ItemText, IsItem, At, ItemValue, ItemsComplete, ItemCompletes;
    ItemsGive(s, p);
    var at := ParseItems(s, p).at;
    var v := ParseItem(s, p);
    if v.Ok? && Peek(s, Skip(s, v.next)) == COMMA {
      var q := Skip(s, v.next);
      var i := ItemStands(s, p);
      var rest := ItemsCompleted(s, q + 1);
      items := [i] + rest;
      ItemsPrepended(i, rest, s, p, q, at);
    } else {
      var i;
      if v.Ok? {
        i := ItemRead(s, p);
      } else {
        i := ItemRefused(s, p);
      }
      items := [i];
      OneItem(i, s, p, at);
    }
  }

  lemma {:induction false} OneItem(i: Item, s: bytes, p: nat, at: nat)
    requires ItemCompletes(i, s, p, at)
    ensures ItemsComplete([i], s, p, at)
  {
    hide Starts, ItemText, IsItem;
    var none: seq<Item> := [];
    assert AreItems(none) && [i][1..] == none;
  }

  lemma {:induction false} ItemsPrepended(i: Item, rest: seq<Item>, s: bytes, p: nat, q: nat, at: nat)
    requires Outside(s, p) && ItemStood(i, s, p) && q == p + |ItemText(i)| && Peek(s, q) == COMMA
    requires ItemsComplete(rest, s, q + 1, at)
    ensures ItemsComplete([i] + rest, s, p, at)
  {
    hide Skip, ParseItem, Outside, Starts, ItemText, IsItem, At, ItemValue;
    ConsTail(i, rest);
    AtOne(s, q);
    StartsBehind([COMMA], ItemsText(rest), s, q, at);
    StartsBehind(ItemText(i), [COMMA] + ItemsText(rest), s, p, at);
  }

  predicate PairCompletes(m: Pair, s: bytes, p: nat, at: nat) {
    IsPair(m) && Starts(PairText(m), s, p, at)
  }

  predicate PairsComplete(pairs: seq<Pair>, s: bytes, p: nat, at: nat) {
    pairs != [] && ArePairs(pairs) && Starts(PairsText(pairs), s, p, at)
  }

  const ANY_ITEM: Item := Item([], ANY, [])

  lemma {:induction false} AnyItem()
    ensures IsItem(ANY_ITEM)
  {}

  /** A name behind blanks. */
  lemma {:induction false} NameCompleted(xs: seq<Piece>, s: bytes, p: nat, at: nat) returns (m: Pair)
    requires p <= |s| && ArePieces(xs) && Starts(LiteralText(xs), s, Skip(s, p), at)
    ensures PairCompletes(m, s, p, at)
  {
    hide At, Blank, Skip, LiteralText, ArePieces, Starts, IsItem, PairText;
    SkipStands(s, p);
    NoBlanks();
    AnyItem();
    m := Pair(s[p..Skip(s, p)], xs, [], ANY_ITEM);
    var more := PairTail(m);
    StartsMore(LiteralText(xs), more, s, Skip(s, p), at);
    StartsBehind(m.before, LiteralText(xs) + more, s, p, at);
  }

  /** The text of a pair behind its name. */
  lemma {:induction false} PairTail(m: Pair) returns (more: bytes)
    ensures PairText(m) == m.before + (LiteralText(m.name) + more)
  {
    more := m.behind + ([COLON] + ItemText(m.item));
  }

  /** No name. */
  lemma {:induction false} PairBegun(s: bytes, p: nat) returns (m: Pair)
    requires p <= |s|
    ensures PairCompletes(m, s, p, Skip(s, p))
  {
    hide Skip, ItemText, Starts, LiteralText;
    SkipStands(s, p);
    StartsNone(LiteralText([]), s, Skip(s, p));
    m := NameCompleted([], s, p, Skip(s, p));
  }

  lemma {:induction false} StartsBehindThree(a: bytes, b: bytes, c: bytes, more: bytes, s: bytes, p: nat, at: nat)
    requires At(s, p, a) && At(s, p + |a|, b) && At(s, p + |a| + |b|, c) && Starts(more, s, p + |a| + |b| + |c|, at)
    ensures Starts(a + (b + (c + more)), s, p, at)
  {
    hide At, Starts;
    StartsBehind(c, more, s, p + |a| + |b|, at);
    StartsBehind(b, c + more, s, p + |a|, at);
    StartsBehind(a, b + (c + more), s, p, at);
  }

  lemma {:induction false} BlanksBetween(s: bytes, p: nat, q: nat)
    requires p <= |s| && q == Skip(s, p)
    ensures p <= q <= |s| && Blank(s[p..q]) && At(s, p, s[p..q]) && |s[p..q]| == q - p
  {
    hide At, Blank, Skip;
    SkipStands(s, p);
  }

  /** A closed name with the blanks around it. */
  lemma {:induction false} NameRead(s: bytes, p: nat, q: nat, e: nat, c: nat, more: bytes, at: nat)
    returns (xs: seq<Piece>)
    requires p <= |s| && q == Skip(s, p) && Outside(s, q) && Peek(s, q) == QUOTE && Closed(s, q)
    requires e == ParseString(s, q).next && c == Skip(s, e) && e <= |s| && Starts(more, s, c, at)
    ensures q <= |s| && Blank(s[p..q]) && ArePieces(xs) && c <= |s| && Blank(s[e..c])
    ensures Starts(s[p..q] + (LiteralText(xs) + (s[e..c] + more)), s, p, at)
  {
    hide At, Blank, Skip, LiteralText, ArePieces, Starts, ParseString, Closed, Outside, Meaning, BodyTokens, Peek;
    BlanksBetween(s, p, q);
    BlanksBetween(s, e, c);
    xs := LiteralStands(s, q);
    StartsBehindThree(s[p..q], LiteralText(xs), s[e..c], more, s, p, at);
  }

  /** A closed name, a colon, and an item that completes what is behind it. */
  lemma {:induction false} NamedPair(s: bytes, p: nat, q: nat, e: nat, c: nat, i: Item, at: nat) returns (m: Pair)
    requires p <= |s| && q == Skip(s, p) && Outside(s, q) && Peek(s, q) == QUOTE && Closed(s, q)
    requires e == ParseString(s, q).next && c == Skip(s, e) && e <= |s|
    requires IsItem(i) && Starts([COLON] + ItemText(i), s, c, at)
    ensures PairCompletes(m, s, p, at)
  {
    hide At, Blank, Skip, LiteralText, ArePieces, Starts, ParseString, Closed, Outside, ItemText, IsItem;
    var xs := NameRead(s, p, q, e, c, [COLON] + ItemText(i), at);
    m := Pair(s[p..q], xs, s[e..c], i);
  }

  /** The positions behind a name and behind the blanks behind it. */
  lemma {:induction false} NameEnds(s: bytes, p: nat)
    requires Outside(s, p) && ParseString(s, p).Ok?
    ensures var e := ParseString(s, p).next; e < |s| && Skip(s, e) < |s| && Peek(s, p) == QUOTE
  {
    hide Outside, Skip, BodyEnd, Tokens, Meaning;
    var e := ParseString(s, p).next;
    OutsideBefore(s, e);
    SkipOutside(s, e);
    OutsideBefore(s, Skip(s, e));
  }

  lemma {:induction false} ValueRefused(s: bytes, p: nat, q: nat, e: nat, c: nat) returns (m: Pair)
    requires Outside(s, p) && q == Skip(s, p) && Outside(s, q) && Peek(s, q) == QUOTE && Closed(s, q)
    requires e == ParseString(s, q).next && c == Skip(s, e) && e <= |s| && c < |s| && Peek(s, c) == COLON
    requires Outside(s, c + 1) && ParseItem(s, c + 1).Fail?
    ensures PairCompletes(m, s, p, ParseItem(s, c + 1).at)
    decreases |s| - c
  {
    hide At, Skip, LiteralText, Starts, ParseString, Closed, Outside, ParseItem, ItemText, IsItem, PairCompletes;
    var at := ParseItem(s, c + 1).at;
    var i := ItemRefused(s, c + 1);
    AtOne(s, c);
    StartsBehind([COLON], ItemText(i), s, c, at);
    OutsideBefore(s, p);
    m := NamedPair(s, p, q, e, c, i, at);
  }

  lemma {:induction false} ColonRefused(s: bytes, p: nat, q: nat, e: nat, c: nat) returns (m: Pair)
    requires p <= |s| && q == Skip(s, p) && Outside(s, q) && Peek(s, q) == QUOTE && Closed(s, q)
    requires e == ParseString(s, q).next && c == Skip(s, e) && e <= |s| && c <= |s|
    ensures PairCompletes(m, s, p, c)
  {
    hide At, Skip, LiteralText, Starts, ParseString, Closed, Outside, ItemText, IsItem, PairCompletes;
    AnyItem();
    StartsNone([COLON] + ItemText(ANY_ITEM), s, c);
    m := NamedPair(s, p, q, e, c, ANY_ITEM, c);
  }

  lemma {:induction false} PairRefused(s: bytes, p: nat) returns (m: Pair)
    requires Outside(s, p) && ParseMember(s, p).Fail?
    ensures PairCompletes(m, s, p, ParseMember(s, p).at)
    decreases |s| - p, 2
  {
    hide At, Skip, LiteralText, ArePieces, Starts, ParseString, Closed, Outside, ParseMember, ParseItem, PairCompletes;
    MemberGives(s, p);
    OutsideBefore(s, p);
    var q := Skip(s, p);
    if ParseString(s, q).Fail? {
      m := PairBegun(s, p);
      NoName(s, q);
    } else {
      NameEnds(s, q);
      var e := ParseString(s, q).next;
      var c := Skip(s, e);
      if !Closed(s, q) {
        var xs := LiteralCompleted(s, q);
        SkipStays(s, e);
        m := NameCompleted(xs, s, p, e);
      } else if Peek(s, c) == COLON {
        m := ValueRefused(s, p, q, e, c);
      } else {
        m := ColonRefused(s, p, q, e, c);
      }
    }
  }

  lemma {:induction false} NoName(s: bytes, p: nat)
    requires Outside(s, p) && ParseString(s, p).Fail?
    ensures ParseString(s, p).at == p
  {}

  lemma {:induction false} PairRead(s: bytes, p: nat) returns (m: Pair)
    requires Outside(s, p) && ParseMember(s, p).Ok?
    ensures PairCompletes(m, s, p, Skip(s, ParseMember(s, p).next))
  {
    hide At, Skip, LiteralText, Starts, ParseString, Closed, Outside, ParseMember, ParseItem, ItemText, IsItem;
    hide PairCompletes;
    MemberGives(s, p);
    OutsideBefore(s, p);
    var q := Skip(s, p);
    NameEnds(s, q);
    var e := ParseString(s, q).next;
    var c := Skip(s, e);
    NameClosed(s, q);
    var i := ItemRead(s, c + 1);
    var at := Skip(s, ParseItem(s, c + 1).next);
    AtOne(s, c);
    StartsBehind([COLON], ItemText(i), s, c, at);
    m := NamedPair(s, p, q, e, c, i, at);
  }

  lemma {:induction false} PairsCompleted(s: bytes, p: nat) returns (pairs: seq<Pair>)
    requires Outside(s, p) && ParseMembers(s, p).Fail?
    ensures PairsComplete(pairs, s, p, ParseMembers(s, p).at)
    decreases |s| - p, 3
  {
    hide Skip, ParseMember, ParseMembers, Outside, Starts, PairText, IsPair, At, MemberOf, PairsComplete, PairCompletes;
    MembersGive(s, p);
    var at := ParseMembers(s, p).at;
    var r := ParseMember(s, p);
    if r.Ok? && Peek(s, Skip(s, r.next)) == COMMA {
      var q := Skip(s, r.next);
      var m := PairStands(s, p);
      var rest := PairsCompleted(s, q + 1);
      pairs := [m] + rest;
      PairsPrepended(m, rest, s, p, q, at);
    } else {
      var m;
      if r.Ok? {
        m := PairRead(s, p);
      } else {
        m := PairRefused(s, p);
      }
      pairs := [m];
      OnePair(m, s, p, at);
    }
  }

  lemma {:induction false} OnePair(m: Pair, s: bytes, p: nat, at: nat)
    requires PairCompletes(m, s, p, at)
    ensures PairsComplete([m], s, p, at)
  {
    hide Starts, PairText, IsPair;
    var none: seq<Pair> := [];
    assert ArePairs(none) && [m][1..] == none;
  }

  lemma {:induction false} PairsPrepended(m: Pair, rest: seq<Pair>, s: bytes, p: nat, q: nat, at: nat)
    requires Outside(s, p) && PairStood(m, s, p) && q == p + |PairText(m)| && Peek(s, q) == COMMA
    requires PairsComplete(rest, s, q + 1, at)
    ensures PairsComplete([m] + rest, s, p, at)
  {
    hide Skip, ParseMember, Outside, Starts, PairText, IsPair, At, MemberOf;
    ConsTail(m, rest);
    AtOne(s, q);
    StartsBehind([COMMA], PairsText(rest), s, q, at);
    StartsBehind(PairText(m), [COMMA] + PairsText(rest), s, p, at);
  }

  // ---------- the blamed position ----------

  /** cJSON_GetErrorPtr after cJSON_Parse: up to the blamed position the text begins blanks and a text of
      JSON; and no text that is the same up to and including the blamed character begins with one. Where that
      character is the first of a word, the four behind it must be the same too, and at a point the one
      behind it. */
  lemma {:induction false} BlamedAt(s: bytes)
    requires Outside(s, 0) && Parse(s).Fail?
    ensures exists i :: ItemCompletes(i, s, 0, Parse(s).at)
    ensures forall t, blanks, v, e ::
      Outside(t, 0) && Alike(s, t, Parse(s).at + Look(Peek(s, Parse(s).at))) ==> !Begun(t, blanks, v, e)
  {
    hide Outside, Alike, Begun, Starts, ItemText;
    var i := ItemRefused(s, 0);
    forall t, blanks, v, e | Outside(t, 0) && Alike(s, t, Reach(s, Parse(s))) && Begun(t, blanks, v, e)
      ensures false
    {
      ItemAlike(s, t, 0);
      BegunParses(t, blanks, v, e);
    }
  }
}
