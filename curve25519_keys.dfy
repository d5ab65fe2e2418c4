/** ECC/Elliptic_Curve.py, `generate_private_key` of `Curve25519`: the
    Ed25519 reduction modulo the group order and the RFC 7748 clamping of a
    Curve25519 scalar. */
module Curve25519Keys {
  import opened Curve25519
  import opened Curve25519Clamp

  // ---------------------------------------------------------------------
  // generate_private_key
  // ---------------------------------------------------------------------

  /** The Ed25519 key: the seed modulo L, with 0 replaced by 1. */
  function ReducedKey(n: int): (key: int)
    ensures 1 <= key < GroupOrder
    ensures n % GroupOrder != 0 ==> key == n % GroupOrder
    ensures n % GroupOrder == 0 ==> key == 1
  {
    if n % GroupOrder == 0 then 1 else n % GroupOrder
  }

  /** `generate_private_key`: the integer `seed` stands for the value of the
      32 random bytes (their decoding is not modelled); Ed25519 reduces
      modulo L and replaces 0 by 1, Curve25519 clamps. */
  method GeneratePrivateKey(v: Variant, seed: bv256) returns (key: int)
    ensures v == Ed25519 ==> key == ReducedKey(seed as int)
    ensures v == Montgomery ==> key == Clamp(seed) as int
  {
    if v == Ed25519 {
      key := ReducedKey(seed as int);
    } else {
      var k := ClampInPlace(seed);
      key := k as int;
    }
  }
}
