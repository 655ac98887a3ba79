/** UTF-16 surrogate pairs and UTF-8, by their arithmetic definitions, and the pair formula the
    parser uses instead. */
module Unicode {
  import opened Bytes

  predicate IsHigh(u: nat) { 0xD800 <= u <= 0xDBFF }

  predicate IsLow(u: nat) { 0xDC00 <= u <= 0xDFFF }

  /** Section 2.2 of RFC 2781: the scalar value of a surrogate pair. */
  function Utf16Pair(hi: nat, lo: nat): (cp: nat)
    requires IsHigh(hi) && IsLow(lo)
    ensures 0x1_0000 <= cp <= 0x10_FFFF
  {
    0x1_0000 + (hi - 0xD800) * 0x400 + (lo - 0xDC00)
  }

  /** Bit 6 of a high half, which is bit 16 of the twenty-bit number the pair carries. */
  predicate Bit6(hi: nat) {
    (hi / 64) % 2 == 1
  }

  /** cjson.c ors 0x10000 into the twenty-bit number where UTF-16 adds it. */
  function OredPair(hi: nat, lo: nat): (cp: nat)
    requires IsHigh(hi) && IsLow(lo)
    ensures 0x1_0000 <= cp <= 0x10_FFFF
  {
    if Bit6(hi) then (hi - 0xD800) * 0x400 + (lo - 0xDC00) else Utf16Pair(hi, lo)
  }

  /** The pair formula is UTF-16 decoding exactly when bit 6 of the high half is clear. */
  lemma {:induction false} PairExact(hi: nat, lo: nat)
    requires IsHigh(hi) && IsLow(lo)
    ensures OredPair(hi, lo) == Utf16Pair(hi, lo) <==> !Bit6(hi)
  {
    assert OredPair(hi, lo) == Utf16Pair(hi, lo) - (if Bit6(hi) then 0x1_0000 else 0);
  }

  /** Section 3 of RFC 3629: the octets of a code point. */
  function Utf8(cp: nat): (t: bytes)
    requires cp <= 0x10_FFFF
    ensures 1 <= |t| <= 4
  {
    if cp < 0x80 then [cp]
    else if cp < 0x800 then [0xC0 + cp / 64, 0x80 + cp % 64]
    else if cp < 0x1_0000 then [0xE0 + cp / 64 / 64, 0x80 + cp / 64 % 64, 0x80 + cp % 64]
    else [0xF0 + cp / 64 / 64 / 64, 0x80 + cp / 64 / 64 % 64, 0x80 + cp / 64 % 64, 0x80 + cp % 64]
  }

  /** Reading one code point back from its octets. */
  function FromUtf8(t: bytes): int
    requires 1 <= |t| <= 4
  {
    match |t|
    case 1 => t[0]
    case 2 => (t[0] as int - 0xC0) * 64 + (t[1] as int - 0x80)
    case 3 => (t[0] as int - 0xE0) * 4096 + (t[1] as int - 0x80) * 64 + (t[2] as int - 0x80)
    case _ =>
      (t[0] as int - 0xF0) * 262144 + (t[1] as int - 0x80) * 4096 + (t[2] as int - 0x80) * 64 + (t[3] as int - 0x80)
  }

  /** UTF-8 is invertible, and only ASCII code points have an octet below 0x80. */
  lemma {:induction false} Utf8RoundTrip(cp: nat)
    requires cp <= 0x10_FFFF
    ensures FromUtf8(Utf8(cp)) == cp
    ensures cp >= 0x80 ==> forall i :: 0 <= i < |Utf8(cp)| ==> Utf8(cp)[i] >= 0x80
  {
    assert cp == 64 * (cp / 64) + cp % 64;
    assert cp / 64 == 64 * (cp / 64 / 64) + cp / 64 % 64;
    assert cp / 64 / 64 == 64 * (cp / 64 / 64 / 64) + cp / 64 / 64 % 64;
  }
}
