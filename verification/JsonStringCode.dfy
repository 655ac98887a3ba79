/** The two-pass string routines of cjson.c: both measure first, allocate, and then fill the
    buffer through a moving position. */
module JsonStringCode {
  import opened Bytes
  import opened CText
  import opened Seqs
  import opened Unicode
  import opened JsonString
  import opened Bits

  /** The buffer holds t as a C string. */
  ghost predicate Holds(out: array<byte>, t: bytes)
    reads out
  {
    |t| < out.Length && out[..|t|] == t && out[|t|] == NUL
  }

  // ---------- one step of the decoder ----------

  lemma {:induction false} DecodeRaw(s: bytes, p: nat)
    requires Inside(s, p) && Peek(s, p) != QUOTE && Peek(s, p) != NUL && Peek(s, p) != BACKSLASH
    ensures Inside(s, p + 1) && Decode(s, p) == [s[p]] + Decode(s, p + 1)
    ensures BodyEnd(s, p) == BodyEnd(s, p + 1) && Measure(s, p) == 1 + Measure(s, p + 1)
  {
    assert Tokens(s, p)[1..] == Tokens(s, p + 1);
  }

  lemma {:induction false} DecodeEscape(s: bytes, p: nat)
    requires Inside(s, p) && Peek(s, p) == BACKSLASH && Peek(s, p + 1) != LOWER_U
    ensures p + 1 < |s| && Inside(s, p + 2) && Decode(s, p) == [Unescape(s[p + 1])] + Decode(s, p + 2)
    ensures BodyEnd(s, p) == BodyEnd(s, p + 2) && Measure(s, p) == 1 + Measure(s, p + 2)
  {
    assert Tokens(s, p)[1..] == Tokens(s, p + 2);
  }

  predicate UnitAt(s: bytes, p: nat) {
    Peek(s, p) == BACKSLASH && Peek(s, p + 1) == LOWER_U
  }

  lemma {:induction false} TokensUnit(s: bytes, p: nat)
    requires Inside(s, p) && UnitAt(s, p)
    ensures Hex4At(s, p + 2) && Inside(s, p + 6)
    ensures Tokens(s, p) == [Unit(Hex4(s, p + 2))] + Tokens(s, p + 6)
    ensures BodyEnd(s, p) == BodyEnd(s, p + 6) && Measure(s, p) == 5 + Measure(s, p + 6)
  {
    InsideHex4(s, p + 2);
    BodyEndHex4(s, p + 2);
  }

  /** The units at p that stand alone, and those that vanish. */
  lemma {:induction false} DecodeUnit(s: bytes, p: nat)
    requires Inside(s, p) && UnitAt(s, p)
    ensures Hex4At(s, p + 2) && Inside(s, p + 6)
    ensures var u := Hex4(s, p + 2);
      && (u == 0 || IsLow(u) ==> Decode(s, p) == Decode(s, p + 6))
      && (u != 0 && !IsLow(u) && !IsHigh(u) ==> Decode(s, p) == Utf8(u) + Decode(s, p + 6))
  {
    TokensUnit(s, p);
    assert Tokens(s, p)[1..] == Tokens(s, p + 6);
  }

  lemma {:induction false} FirstTokenRaw(s: bytes, p: nat)
    requires Inside(s, p)
    ensures !UnitAt(s, p) ==> Tokens(s, p) == [] || Tokens(s, p)[0].Raw?
  {}

  /** A high half that no escaped unit follows vanishes. */
  lemma {:induction false} DecodeLoneHigh(s: bytes, p: nat)
    requires Inside(s, p) && UnitAt(s, p) && Hex4At(s, p + 2) && IsHigh(Hex4(s, p + 2))
    requires !UnitAt(s, p + 6)
    ensures Inside(s, p + 6) && Decode(s, p) == Decode(s, p + 6)
  {
    TokensUnit(s, p);
    FirstTokenRaw(s, p + 6);
    assert Tokens(s, p)[1..] == Tokens(s, p + 6);
  }

  /** A high half and the unit after it. */
  lemma {:induction false} DecodeHigh(s: bytes, p: nat)
    requires Inside(s, p) && UnitAt(s, p) && Hex4At(s, p + 2) && IsHigh(Hex4(s, p + 2))
    requires Inside(s, p + 6) && UnitAt(s, p + 6)
    ensures Hex4At(s, p + 8) && Inside(s, p + 12)
    ensures var u, u2 := Hex4(s, p + 2), Hex4(s, p + 8);
      Decode(s, p) == (if IsLow(u2) then Utf8(OredPair(u, u2)) else []) + Decode(s, p + 12)
  {
    TokensUnit(s, p);
    TokensUnit(s, p + 6);
    var ts := Tokens(s, p);
    assert ts[1] == Tokens(s, p + 6)[0];
    assert ts[2..] == Tokens(s, p + 6)[1..] == Tokens(s, p + 12);
  }

  // ---------- parse_string ----------

  /** The body the cases of the UTF-8 switch share: the low six bits go just before p. */
  method WriteContinuation(out: array<byte>, p: nat, uc: nat) returns (p': nat, uc': nat)
    requires 0 < p <= out.Length
    modifies out
    ensures p' == p - 1 && uc' == uc / 64
    ensures out[p'] == 0x80 + uc % 64
    ensures forall i :: 0 <= i < out.Length && i != p' ==> out[i] == old(out[i])
    ensures forall o: object {:trigger allocated(o)} {:trigger old(allocated(o))} :: allocated(o) ==> old(allocated(o))
  {
    Continuation(uc);
    p' := p - 1;
    out[p'] := And(Or(uc, 0x80), 0xBF);
    uc' := uc / 64;
  }

  /** Writes one code point backwards into the n bytes from at, n being its length in UTF-8; the
      code falls through from the case of the longest form to that of the shortest. */
  method WriteUtf8(out: array<byte>, at: nat, cp: nat) returns (next: nat)
    requires cp <= 0x10_FFFF && at + |Utf8(cp)| <= out.Length
    modifies out
    ensures next == at + |Utf8(cp)|
    ensures forall i :: 0 <= i < |Utf8(cp)| ==> out[at + i] == Utf8(cp)[i]
    ensures out[..at] == old(out[..at])
    ensures forall o: object {:trigger allocated(o)} {:trigger old(allocated(o))} :: allocated(o) ==> old(allocated(o))
  {
    hide And, Or;
    var n := if cp < 0x80 then 1 else if cp < 0x800 then 2 else if cp < 0x1_0000 then 3 else 4;
    var mark := if n == 1 then 0 else if n == 2 then 0xC0 else if n == 3 then 0xE0 else 0xF0;
    var p, uc := at + n, cp;
    if n >= 4 {
      p, uc := WriteContinuation(out, p, uc);
    }
    if n >= 3 {
      p, uc := WriteContinuation(out, p, uc);
    }
    if n >= 2 {
      p, uc := WriteContinuation(out, p, uc);
    }
    FirstByte(uc);
    p := p - 1;
    out[p] := Or(uc, mark);
    next := p + n;
  }

  /** What the 'u' case makes of the units at q: a code point, or nothing. On return ptr stands on the
      last character taken. */
  method ReadCodePoint(s: bytes, q: nat) returns (ptr: nat, uc: nat, some: bool)
    requires CString(s) && Inside(s, q) && UnitAt(s, q)
    ensures q < ptr && Inside(s, ptr + 1) && BodyEnd(s, ptr + 1) == BodyEnd(s, q)
    ensures uc <= 0x10_FFFF && Measure(s, ptr + 1) + 5 <= Measure(s, q)
    ensures Decode(s, q) == (if some then Utf8(uc) else []) + Decode(s, ptr + 1)
    ensures forall o: object {:trigger allocated(o)} {:trigger old(allocated(o))} :: allocated(o) ==> old(allocated(o))
  {
    hide Measure, BodyEnd, Decode, Utf8, PairWord, OredPair, Inside, Tokens;
    TokensUnit(s, q);
    DecodeUnit(s, q);
    NothingBefore(Decode(s, q));
    uc := Hex4(s, q + 2);
    ptr, some := q + 5, false;
    if (0xDC00 <= uc && uc <= 0xDFFF) || uc == 0 {
      return;
    }
    if 0xD800 <= uc && uc <= 0xDBFF {
      InsideWithin(s, ptr + 1);
      if s[ptr + 1] != BACKSLASH || s[ptr + 2] != LOWER_U {
        DecodeLoneHigh(s, q);
        return;
      }
      TokensUnit(s, q + 6);
      DecodeHigh(s, q);
      var uc2 := Hex4(s, ptr + 3);
      ptr := ptr + 6;
      if uc2 < 0xDC00 || uc2 > 0xDFFF {
        return;
      }
      PairWordIs(uc, uc2);
      uc := PairWord(uc, uc2);
    }
    some := true;
  }

  lemma {:induction false} InsideWithin(s: bytes, p: nat)
    requires Inside(s, p)
    ensures p < |s|
  {}

  /** The 'u' case of the decoding switch; q is the position of the backslash. On return ptr stands
      on the last character taken. */
  method ReadUnit(s: bytes, q: nat, out: array<byte>, ptr2: nat) returns (ptr: nat, ptr2': nat)
    requires CString(s) && Inside(s, q) && UnitAt(s, q)
    requires ptr2 + Measure(s, q) < out.Length
    modifies out
    ensures q < ptr && Inside(s, ptr + 1) && BodyEnd(s, ptr + 1) == BodyEnd(s, q)
    ensures ptr2 <= ptr2' && ptr2' + Measure(s, ptr + 1) <= ptr2 + Measure(s, q)
    ensures out[..ptr2] == old(out[..ptr2])
    ensures Decode(s, q) == out[ptr2..ptr2'] + Decode(s, ptr + 1)
    ensures forall o: object {:trigger allocated(o)} {:trigger old(allocated(o))} :: allocated(o) ==> old(allocated(o))
  {
    hide Measure, BodyEnd, Decode, Utf8, Inside, UnitAt;
    var uc, some;
    ptr, uc, some := ReadCodePoint(s, q);
    ptr2' := ptr2;
    if some {
      ptr2' := WriteUtf8(out, ptr2, uc);
      assert out[ptr2..ptr2'] == Utf8(uc);
    }
  }

  /** One turn of the decoding loop. */
  method ReadPiece(s: bytes, q: nat, out: array<byte>, ptr2: nat) returns (ptr: nat, ptr2': nat)
    requires CString(s) && Inside(s, q) && s[q] != QUOTE && s[q] != NUL
    requires ptr2 + Measure(s, q) < out.Length
    modifies out
    ensures q < ptr && Inside(s, ptr) && BodyEnd(s, ptr) == BodyEnd(s, q)
    ensures ptr2 <= ptr2' && ptr2' + Measure(s, ptr) <= ptr2 + Measure(s, q)
    ensures out[..ptr2] == old(out[..ptr2])
    ensures Decode(s, q) == out[ptr2..ptr2'] + Decode(s, ptr)
    ensures forall o: object {:trigger allocated(o)} {:trigger old(allocated(o))} :: allocated(o) ==> old(allocated(o))
  {
    hide Measure, BodyEnd, Decode, Inside, Tokens;
    InsideWithin(s, q);
    if s[q] != BACKSLASH {
      DecodeRaw(s, q);
      out[ptr2] := s[q];
      ptr, ptr2' := q + 1, ptr2 + 1;
    } else {
      ptr := q + 1;
      if s[ptr] == LOWER_U {
        ptr, ptr2' := ReadUnit(s, q, out, ptr2);
      } else {
        DecodeEscape(s, q);
        if s[ptr] == LOWER_B {
          out[ptr2] := BACKSPACE;
        } else if s[ptr] == LOWER_F {
          out[ptr2] := FORMFEED;
        } else if s[ptr] == LOWER_N {
          out[ptr2] := LINEFEED;
        } else if s[ptr] == LOWER_R {
          out[ptr2] := RETURN;
        } else if s[ptr] == LOWER_T {
          out[ptr2] := TAB;
        } else {
          out[ptr2] := s[ptr];
        }
        ptr2' := ptr2 + 1;
      }
      ptr := ptr + 1;
    }
  }

  lemma {:induction false} PieceAppended(out: seq<byte>, at: nat, next: nat, d: bytes, piece: bytes, rest: bytes,
                                   whole: bytes)
    requires at <= next <= |out| && out[..at] == d && out[at..next] == piece && d + (piece + rest) == whole
    ensures out[..next] + rest == whole
  {
    assert out[..next] == d + piece;
  }

  /** The first pass. */
  method MeasureLiteral(s: bytes, p: nat) returns (len: nat)
    requires CString(s) && Inside(s, p)
    ensures len == Measure(s, p)
    ensures forall o: object {:trigger allocated(o)} {:trigger old(allocated(o))} :: allocated(o) ==> old(allocated(o))
  {
    var ptr := p;
    len := 0;
    while s[ptr] != QUOTE && s[ptr] != NUL
      invariant Inside(s, ptr)
      invariant len + Measure(s, ptr) == Measure(s, p)
      decreases |s| - ptr
    {
      len := len + 1;
      if s[ptr] == BACKSLASH {
        ptr := ptr + 2;
      } else {
        ptr := ptr + 1;
      }
    }
  }

  /** The second pass, up to the quote or terminator at ptr; ptr2 is the number of bytes written. */
  method DecodeLiteral(s: bytes, p: nat, out: array<byte>) returns (ptr: nat, ptr2: nat)
    requires CString(s) && Inside(s, p) && Measure(s, p) < out.Length
    modifies out
    ensures ptr == BodyEnd(s, p) < |s| && ptr2 < out.Length && out[..ptr2] == Decode(s, p)
    ensures forall o: object {:trigger allocated(o)} {:trigger old(allocated(o))} :: allocated(o) ==> old(allocated(o))
  {
    ptr, ptr2 := p, 0;
    NothingBefore(Decode(s, p));
    while s[ptr] != QUOTE && s[ptr] != NUL
      invariant Inside(s, ptr) && BodyEnd(s, ptr) == BodyEnd(s, p)
      invariant ptr2 + Measure(s, ptr) < out.Length
      invariant forall o: object {:trigger allocated(o)} {:trigger old(allocated(o))} ::
        allocated(o) ==> old(allocated(o))
      invariant out[..ptr2] + Decode(s, ptr) == Decode(s, p)
      decreases |s| - ptr
    {
      ghost var before, at := out[..ptr2], ptr2;
      ptr, ptr2 := ReadPiece(s, ptr, out, ptr2);
      PieceAppended(out[..], at, ptr2, before, out[at..ptr2], Decode(s, ptr), Decode(s, p));
    }
    DecodeDone(s, ptr, out[..ptr2]);
  }

  lemma {:induction false} DecodeDone(s: bytes, p: nat, t: bytes)
    requires Inside(s, p) && (Peek(s, p) == QUOTE || Peek(s, p) == NUL)
    ensures BodyEnd(s, p) == p && t + Decode(s, p) == t
  {}

  /** parse_string, at its opening quote: measures the body, allocates, and decodes into the new
      buffer, which ends up holding exactly the decoded bytes. */
  method ReadLiteral(s: bytes, p: nat) returns (out: array<byte>, next: nat)
    requires CString(s) && Outside(s, p) && Peek(s, p) == QUOTE
    ensures fresh(out) && out.Length == Measure(s, p + 1) + 1
    ensures Holds(out, Decode(s, p + 1))
    ensures var e := BodyEnd(s, p + 1); next == if Peek(s, e) == QUOTE then e + 1 else e
    ensures forall o: object {:trigger allocated(o)} {:trigger old(allocated(o))} ::
      allocated(o) ==> old(allocated(o)) || o == out
  {
    var len := MeasureLiteral(s, p + 1);
    hide Measure, BodyEnd, Decode;
    out := new byte[len + 1];
    var ptr, ptr2 := DecodeLiteral(s, p + 1, out);
    assert forall o: object {:trigger allocated(o)} {:trigger old(allocated(o))} ::
      allocated(o) ==> old(allocated(o)) || o == out;
    out[ptr2] := NUL;
    assert out[..ptr2] == Decode(s, p + 1);
    if s[ptr] == QUOTE {
      ptr := ptr + 1;
    }
    next := ptr;
  }
}
