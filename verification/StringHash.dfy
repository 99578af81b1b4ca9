/** Byte strings and the 16-bit hash that places a key, both in a table and on the ring. */
module StringHash {
  import opened RingArithmetic

  type Byte = x: int | 0 <= x < 256
  type Bytes = seq<Byte>

  /** A byte read through a signed char. */
  function Signed(c: Byte): int {
    if c < 128 then c else c - 256
  }

  function Hash(s: Bytes): Id {
    if s == [] then 5381 else (33 * Hash(s[..|s| - 1]) + Signed(s[|s| - 1])) % MODULUS
  }

  /** The loop in uint16_t: shift by five, add, add the character, drop the high bits. */
  method StringHash(s: Bytes) returns (hash: Id)
    ensures hash == Hash(s)
  {
    hash := 5381;
    for i := 0 to |s|
      invariant hash == Hash(s[..i])
    {
      assert s[..i + 1][..i] == s[..i];
      hash := (hash * 32 + hash + Signed(s[i]) % MODULUS) % MODULUS;
    }
    assert s[..|s|] == s;
  }

  // ---------- the hash as a sum ----------

  function Power33(n: nat): nat {
    if n == 0 then 1 else 33 * Power33(n - 1)
  }

  /** The number from -128 to 127 that the eight bits are in two's complement. */
  function CharValue(c: Byte): int {
    (c + 128) % 256 - 128
  }

  /** Each byte counts for its place, from the first one on. */
  function PlaceSum(s: Bytes): int {
    if s == [] then 0 else CharValue(s[0]) * Power33(|s| - 1) + PlaceSum(s[1..])
  }

  lemma {:induction false} PlaceSumStep(s: Bytes)
    requires s != []
    ensures PlaceSum(s) == 33 * PlaceSum(s[..|s| - 1]) + CharValue(s[|s| - 1])
  {
    if |s| > 1 {
      PlaceSumStep(s[1..]);
      assert s[1..][..|s| - 2] == s[..|s| - 1][1..];
      var (c, p) := (CharValue(s[0]), Power33(|s| - 2));
      assert c * (33 * p) == 33 * (c * p);
    } else {
      assert s[..0] == [] && s[1..] == [];
      assert CharValue(s[0]) * 1 == CharValue(s[0]);
    }
  }

  lemma DropMultiple(x: int, c: int)
    ensures (33 * (x % MODULUS) + c) % MODULUS == (33 * x + c) % MODULUS
  {
    var q := x / MODULUS;
    assert 33 * x + c == 33 * (x % MODULUS) + c + 33 * q * MODULUS;
  }

  /** The hash is the seed and the bytes, weighted by powers of 33, modulo 2^16. */
  lemma {:induction false} HashIsSum(s: Bytes)
    ensures Hash(s) == (5381 * Power33(|s|) + PlaceSum(s)) % MODULUS
  {
    if s != [] {
      var t := s[..|s| - 1];
      HashIsSum(t);
      PlaceSumStep(s);
      var x := 5381 * Power33(|t|) + PlaceSum(t);
      DropMultiple(x, CharValue(s[|s| - 1]));
    }
  }
}
