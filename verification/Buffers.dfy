/** Filling a buffer through a moving position, as the printers do. */
module Buffers {
  import opened Bytes
  import opened JsonString
  import opened JsonStringCode

  /** The buffer's content up to the position. */
  ghost predicate Filled(out: array<byte>, ptr: nat, t: bytes)
    reads out
  {
    ptr == |t| && ptr <= out.Length && out[..ptr] == t
  }

  /** One character more. */
  method Put(out: array<byte>, ptr: nat, c: byte, ghost t: bytes) returns (next: nat)
    requires Filled(out, ptr, t) && ptr < out.Length
    modifies out
    ensures next == ptr + 1 && Filled(out, next, t + [c])
    ensures forall o: object {:trigger allocated(o)} {:trigger old(allocated(o))} :: allocated(o) ==> old(allocated(o))
  {
    out[ptr] := c;
    next := ptr + 1;
    assert out[..next] == out[..ptr] + [c];
  }

  /** The terminator after what was written, which the position does not count. */
  method Terminate(out: array<byte>, ptr: nat, ghost t: bytes)
    requires Filled(out, ptr, t) && ptr < out.Length
    modifies out
    ensures Filled(out, ptr, t) && Holds(out, t)
    ensures forall o: object {:trigger allocated(o)} {:trigger old(allocated(o))} :: allocated(o) ==> old(allocated(o))
  {
    out[ptr] := NUL;
    assert out[..ptr] == t;
  }

  /** The terminator is the first NUL. */
  lemma {:induction false} HoldsAt(src: array<byte>, u: bytes, i: nat)
    requires Holds(src, u) && NulFree(u) && i <= |u|
    ensures src[i] == NUL <==> i == |u|
    ensures i < |u| ==> src[i] == u[i]
  {
    assert i < |u| ==> src[..|u|][i] == u[i];
  }

  /** strcpy(ptr, src); ptr += strlen(src); */
  method PutString(out: array<byte>, ptr: nat, src: array<byte>, ghost t: bytes, ghost u: bytes) returns (next: nat)
    requires Filled(out, ptr, t) && Holds(src, u) && NulFree(u) && out != src
    requires ptr + |u| < out.Length
    modifies out
    ensures next == ptr + |u| && Filled(out, next, t + u)
  {
    var i := 0;
    next := ptr;
    assert t + u[..0] == t;
    while src[i] != NUL
      invariant 0 <= i <= |u| && next == ptr + i
      invariant Filled(out, next, t + u[..i])
      invariant Holds(src, u)
      decreases |u| - i
    {
      HoldsAt(src, u, i);
      assert u[..i + 1] == u[..i] + [u[i]];
      next := Put(out, next, src[i], t + u[..i]);
      assert t + u[..i + 1] == t + u[..i] + [u[i]];
      i := i + 1;
    }
    HoldsAt(src, u, i);
    assert u[..i] == u;
    Terminate(out, next, t + u);
  }

  method StrLen(src: array<byte>, ghost u: bytes) returns (len: nat)
    requires Holds(src, u) && NulFree(u)
    ensures len == |u|
  {
    len := 0;
    while src[len] != NUL
      invariant len <= |u|
      decreases |u| - len
    {
      HoldsAt(src, u, len);
      len := len + 1;
    }
    HoldsAt(src, u, len);
  }
}
