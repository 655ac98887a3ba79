/** What cJSON's recursive-descent parser computes: the value at a position, where it ends, or the
    position it blames. */
module JsonParse {
  import opened Bytes
  import opened CText
  import opened JsonString
  import opened JsonNumber
  import opened JsonDouble
  import opened JsonTree

  /** A parsed value and the position after it, or the error position cJSON_GetErrorPtr reports. */
  datatype Parsed<+T> = Ok(value: T, next: nat) | Fail(at: nat)

  /** Further results behind items that are already there. */
  function Prepend<T>(items: seq<T>, r: Parsed<seq<T>>): Parsed<seq<T>> {
    if r.Ok? then Ok(items + r.value, r.next) else r
  }

  /** From p up to q no literal starts and the text does not end. */
  predicate NoQuote(s: bytes, p: nat, q: nat) {
    p <= q && forall i :: p <= i < q ==> Peek(s, i) != QUOTE && Peek(s, i) != NUL
  }

  lemma {:induction false} NoQuoteInRun(s: bytes, r: Run)
    requires IsRun(s, r)
    ensures NoQuote(s, r.from, r.to)
  {
    forall i | r.from <= i < r.to
      ensures Peek(s, i) != QUOTE && Peek(s, i) != NUL
    {
      assert IsDigit(s[r.from..r.to][i - r.from]);
    }
  }

  lemma {:induction false} NoQuoteInNumber(s: bytes, p: nat)
    requires p <= |s|
    ensures NoQuote(s, p, IntRun(s, p).to) && NoQuote(s, p, FracRun(s, p).to) && NoQuote(s, p, ExpRun(s, p).to)
  {
    NoQuoteInRun(s, IntRun(s, p));
    NoQuoteInRun(s, FracRun(s, p));
    NoQuoteInRun(s, ExpRun(s, p));
  }

  /** A number contains no quotes. */
  lemma {:induction false} OutsideNumber(s: bytes, p: nat)
    requires Outside(s, p)
    ensures Outside(s, ReadNumber(s, p).next)
  {
    var i := IntRun(s, p).to;
    var f := FracRun(s, i).to;
    hide Outside, IntRun, FracRun, ExpRun;
    NoQuoteInNumber(s, p);
    OutsideMoves(s, p, i);
    NoQuoteInNumber(s, i);
    OutsideMoves(s, i, f);
    NoQuoteInNumber(s, f);
    OutsideMoves(s, f, ExpRun(s, f).to);
  }

  lemma {:induction false} OutsideLiteral(s: bytes, p: nat, t: bytes)
    requires At(s, p, t) && Outside(s, p)
    requires forall i :: 0 <= i < |t| ==> t[i] != QUOTE && t[i] != NUL
    ensures Outside(s, p + |t|)
  {
    AtIs(s, p, t);
    forall i | p <= i < p + |t|
      ensures Peek(s, i) != QUOTE && Peek(s, i) != NUL
    {
      assert s[i] == s[p..p + |t|][i - p];
    }
    OutsideMoves(s, p, p + |t|);
  }

  /** parse_string. An unterminated literal is accepted and ends at the terminator. */
  function ParseString(s: bytes, p: nat): (r: Parsed<bytes>)
    requires Outside(s, p)
    ensures r.Ok? ==> p < r.next && Outside(s, r.next)
    ensures r.Fail? ==> p <= r.at < |s|
    ensures r.Ok? <==> Peek(s, p) == QUOTE
  {
    if Peek(s, p) != QUOTE then Fail(p)
    else
      var e := BodyEnd(s, p + 1);
      Ok(Decode(s, p + 1), if Peek(s, e) == QUOTE then e + 1 else e)
  }

  function ParseValue(s: bytes, p: nat): (r: Parsed<Json>)
    requires Outside(s, p)
    ensures r.Ok? ==> p < r.next && Outside(s, r.next)
    ensures r.Fail? ==> p <= r.at < |s|
    decreases |s| - p, 1
  {
    if At(s, p, NULL_TEXT) then OutsideLiteral(s, p, NULL_TEXT); Ok(Null, p + 4)
    else if At(s, p, FALSE_TEXT) then OutsideLiteral(s, p, FALSE_TEXT); Ok(Bool(false), p + 5)
    else if At(s, p, TRUE_TEXT) then OutsideLiteral(s, p, TRUE_TEXT); Ok(Bool(true), p + 4)
    else if Peek(s, p) == QUOTE then
      var r := ParseString(s, p);
      Ok(Str(r.value), r.next)
    else if Peek(s, p) == MINUS || IsDigit(Peek(s, p)) then
      OutsideNumber(s, p);
      Ok(Num(DoubleAt(s, p)), ReadNumber(s, p).next)
    else if Peek(s, p) == LBRACKET then ParseArray(s, p)
    else if Peek(s, p) == LBRACE then ParseObject(s, p)
    else Fail(p)
  }

  function ParseArray(s: bytes, p: nat): (r: Parsed<Json>)
    requires Outside(s, p) && Peek(s, p) == LBRACKET
    ensures r.Ok? ==> p < r.next && Outside(s, r.next)
    ensures r.Fail? ==> p <= r.at < |s|
    decreases |s| - p, 0
  {
    var q := Skip(s, p + 1);
    if Peek(s, q) == RBRACKET then Ok(Arr([]), q + 1)
    else
      var r := ParseItems(s, q);
      if r.Ok? then Ok(Arr(r.value), r.next) else Fail(r.at)
  }

  /** A value after blanks. */
  function ParseItem(s: bytes, p: nat): (r: Parsed<Json>)
    requires Outside(s, p)
    ensures r.Ok? ==> p < r.next && Outside(s, r.next)
    ensures r.Fail? ==> p <= r.at < |s|
    decreases |s| - p, 2
  {
    ParseValue(s, Skip(s, p))
  }

  /** The rest of an array, from before a value up to the closing bracket. */
  function ParseItems(s: bytes, p: nat): (r: Parsed<seq<Json>>)
    requires Outside(s, p)
    ensures r.Ok? ==> p < r.next && Outside(s, r.next)
    ensures r.Fail? ==> p <= r.at < |s|
    decreases |s| - p, 3
  {
    var v := ParseItem(s, p);
    if v.Fail? then Fail(v.at)
    else
      var q := Skip(s, v.next);
      if Peek(s, q) == COMMA then
        var rest := ParseItems(s, q + 1);
        if rest.Ok? then Ok([v.value] + rest.value, rest.next) else rest
      else if Peek(s, q) == RBRACKET then Ok([v.value], q + 1)
      else Fail(q)
  }

  function ParseObject(s: bytes, p: nat): (r: Parsed<Json>)
    requires Outside(s, p) && Peek(s, p) == LBRACE
    ensures r.Ok? ==> p < r.next && Outside(s, r.next)
    ensures r.Fail? ==> p <= r.at < |s|
    decreases |s| - p, 0
  {
    var q := Skip(s, p + 1);
    if Peek(s, q) == RBRACE then Ok(Obj([]), q + 1)
    else
      var r := ParseMembers(s, q);
      if r.Ok? then Ok(Obj(r.value), r.next) else Fail(r.at)
  }

  /** One name, colon and value. */
  function ParseMember(s: bytes, p: nat): (r: Parsed<Member>)
    requires Outside(s, p)
    ensures r.Ok? ==> p < r.next && Outside(s, r.next)
    ensures r.Fail? ==> p <= r.at < |s|
    decreases |s| - p, 2
  {
    var k := ParseString(s, Skip(s, p));
    if k.Fail? then Fail(k.at)
    else
      var q := Skip(s, k.next);
      if Peek(s, q) != COLON then Fail(q)
      else
        var v := ParseItem(s, q + 1);
        if v.Fail? then Fail(v.at) else Ok(Member(Named(k.value), v.value), v.next)
  }

  /** The rest of an object, from before a name up to the closing brace. */
  function ParseMembers(s: bytes, p: nat): (r: Parsed<seq<Member>>)
    requires Outside(s, p)
    ensures r.Ok? ==> p < r.next && Outside(s, r.next)
    ensures r.Fail? ==> p <= r.at < |s|
    decreases |s| - p, 3
  {
    var m := ParseMember(s, p);
    if m.Fail? then Fail(m.at)
    else
      var q := Skip(s, m.next);
      if Peek(s, q) == COMMA then
        var rest := ParseMembers(s, q + 1);
        if rest.Ok? then Ok([m.value] + rest.value, rest.next) else rest
      else if Peek(s, q) == RBRACE then Ok([m.value], q + 1)
      else Fail(q)
  }

  /** cJSON_Parse: one value after leading blanks; what follows it is ignored. */
  function Parse(s: bytes): Parsed<Json>
    requires Outside(s, 0)
  {
    ParseItem(s, 0)
  }
}
