/** The shifts and masks of the string decoder compute the numbers that the model of it uses. */
module Utf8Bits {
  import opened JsonStrings

  /** An unsigned int as a number. */
  function AsInt(w: bv32): int {
    w as int
  }

  // ---------- surrogates ----------

  lemma TenBits(w: bv32, base: bv32)
    requires (base == 0xD800 || base == 0xDC00) && base <= w <= base + 0x3FF
    ensures w & 0x3FF < 0x400 && 0 <= AsInt(w & 0x3FF) < 0x400
    ensures AsInt(w & 0x3FF) == AsInt(w) - if base == 0xD800 then 0xD800 else 0xDC00
  {
  }

  lemma JoinTenBits(a: bv32, b: bv32)
    requires a < 0x400 && b < 0x400
    ensures AsInt(0x10000 + ((a << 10) | b)) == 0x10000 + 0x400 * AsInt(a) + AsInt(b)
  {
  }

  /** The code point that the masks and the shift make of a surrogate pair. */
  lemma SurrogateBits(w1: bv32, w2: bv32)
    requires 0xD800 <= w1 <= 0xDBFF && 0xDC00 <= w2 <= 0xDFFF
    ensures IsHighSurrogate(AsInt(w1)) && IsLowSurrogate(AsInt(w2))
    ensures AsInt(0x10000 + (((w1 & 0x3FF) << 10) | (w2 & 0x3FF))) == JoinSurrogates(AsInt(w1), AsInt(w2))
  {
    hide AsInt;
    TenBits(w1, 0xD800);
    TenBits(w2, 0xDC00);
    JoinTenBits(w1 & 0x3FF, w2 & 0x3FF);
  }

  // ---------- UTF-8 ----------

  /** What is stored of a word in a char. */
  function Stored(w: bv32): (c: char)
    ensures c as int < 256
  {
    (w & 0xFF) as char
  }

  /** The bytes that the switch over the length writes, in the order in which they end up. */
  function Encoded(u: bv32): string {
    var (u1, u2, u3) := (u >> 6, (u >> 6) >> 6, ((u >> 6) >> 6) >> 6);
    if u < 0x80 then [Stored(u)]
    else if u < 0x800 then [Stored(u1 | 0xC0), Continued(u)]
    else if u < 0x10000 then [Stored(u2 | 0xE0), Continued(u1), Continued(u)]
    else [Stored(u3 | 0xF0), Continued(u2), Continued(u1), Continued(u)]
  }

  function Continued(u: bv32): char {
    Stored((u | 0x80) & 0xBF)
  }

  lemma JoinFour(a: bv32, b: bv32)
    requires a < 0x800 && b < 0x10
    ensures AsInt((a << 4) | b) == 0x10 * AsInt(a) + AsInt(b)
  {
  }

  lemma JoinSix(a: bv32, b: bv32)
    requires a < 0x10 && b < 0x40
    ensures AsInt((a << 6) | b) == 0x40 * AsInt(a) + AsInt(b)
  {
  }

  lemma JoinTen(a: bv32, b: bv32)
    requires a < 0x800 && b < 0x400
    ensures AsInt((a << 10) | b) == 0x400 * AsInt(a) + AsInt(b)
  {
  }

  /** `u` and `u` without its last six bits, put together from their parts. */
  predicate IsParts(u: bv32, s: bv32, p: bv32, q: bv32, b: bv32) {
    && u == (p << 10) | ((q << 6) | b) && s == (p << 4) | q
    && p < 0x800 && q < 0x10 && b < 0x40 && (q << 6) | b < 0x400
  }

  lemma Parts(u: bv32)
    requires u < 0x200000
    ensures IsParts(u, u >> 6, u >> 10, (u >> 6) & 0xF, u & 0x3F)
  {
  }

  lemma Summed(u: bv32, s: bv32, p: bv32, q: bv32, b: bv32)
    requires IsParts(u, s, p, q, b)
    ensures AsInt(u) == 0x400 * AsInt(p) + (0x40 * AsInt(q) + AsInt(b)) && AsInt(s) == 0x10 * AsInt(p) + AsInt(q)
  {
    hide AsInt;
    JoinTen(p, (q << 6) | b);
    JoinSix(q, b);
    JoinFour(p, q);
  }

  lemma Divided(p: int, q: int, b: int)
    requires 0 <= b < 0x40
    ensures (0x400 * p + (0x40 * q + b)) / 0x40 == 0x10 * p + q && (0x400 * p + (0x40 * q + b)) % 0x40 == b
  {
  }

  lemma SixLow(u: bv32)
    ensures 0 <= AsInt(u & 0x3F) < 0x40
  {
  }

  /** The shift is a division, and the mask a remainder. */
  lemma ShiftSix(u: bv32)
    requires u < 0x200000
    ensures AsInt(u >> 6) == AsInt(u) / 0x40 && AsInt(u & 0x3F) == AsInt(u) % 0x40
  {
    hide AsInt, IsParts;
    var (s, p, q, b) := (u >> 6, u >> 10, (u >> 6) & 0xF, u & 0x3F);
    Parts(u);
    SixLow(u);
    Summed(u, s, p, q, b);
    Divided(AsInt(p), AsInt(q), AsInt(b));
  }

  lemma ContinuedIs(u: bv32)
    ensures Continued(u) as int == 0x80 + AsInt(u & 0x3F)
  {
  }

  lemma LeadIs(u: bv32)
    ensures u < 0x80 ==> Stored(u) as int == AsInt(u)
    ensures u < 0x20 ==> Stored(u | 0xC0) as int == 0xC0 + AsInt(u)
    ensures u < 0x10 ==> Stored(u | 0xE0) as int == 0xE0 + AsInt(u)
    ensures u < 0x8 ==> Stored(u | 0xF0) as int == 0xF0 + AsInt(u)
  {
  }

  lemma Lengths(u: bv32)
    ensures (u < 0x80 <==> AsInt(u) < 0x80) && (u < 0x800 <==> AsInt(u) < 0x800) && (u < 0x10000 <==> AsInt(u) < 0x10000)
    ensures 0 <= AsInt(u) && (u <= 0x10FFFF <==> AsInt(u) <= 0x10FFFF)
  {
  }

  lemma TailIs(u: bv32)
    requires u < 0x200000
    ensures Continued(u) == Tail(AsInt(u))
  {
    hide AsInt, Continued;
    ContinuedIs(u);
    ShiftSix(u);
  }

  lemma Ranges(u: bv32)
    ensures u <= 0x10FFFF ==> u >> 6 <= 0x10FFFF && (u >> 6) >> 6 <= 0x10FFFF
    ensures u < 0x800 ==> u >> 6 < 0x20
    ensures u < 0x10000 ==> (u >> 6) >> 6 < 0x10
    ensures u <= 0x10FFFF ==> ((u >> 6) >> 6) >> 6 < 0x8
  {
  }

  /** The bytes written are the UTF-8 form of the code point. */
  lemma EncodedIsUtf8(u: bv32)
    requires u <= 0x10FFFF
    ensures 0 <= AsInt(u) <= 0x10FFFF && Encoded(u) == Utf8(AsInt(u))
  {
    hide AsInt, Continued, Stored, Tail;
    var (u1, u2) := (u >> 6, (u >> 6) >> 6);
    Lengths(u);
    Ranges(u);
    ShiftSix(u);
    ShiftSix(u1);
    ShiftSix(u2);
    TailIs(u);
    TailIs(u1);
    TailIs(u2);
    LeadIs(u);
    LeadIs(u1);
    LeadIs(u2);
    LeadIs(u2 >> 6);
  }
}
