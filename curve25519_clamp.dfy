/** The RFC 7748 clamping of a Curve25519 private scalar, as
    `generate_private_key` of ECC/Elliptic_Curve.py applies it to the 32
    random bytes read as a little-endian 256-bit number. */
module Curve25519Clamp {
  const Bit255: bv256 := 0x8000_0000_0000_0000_0000_0000_0000_0000_0000_0000_0000_0000_0000_0000_0000_0000
  const Bit254: bv256 := 0x4000_0000_0000_0000_0000_0000_0000_0000_0000_0000_0000_0000_0000_0000_0000_0000
  /** The bits that clamping leaves alone: 3..253. */
  const KeptBits: bv256 := 0x3FFF_FFFF_FFFF_FFFF_FFFF_FFFF_FFFF_FFFF_FFFF_FFFF_FFFF_FFFF_FFFF_FFFF_FFFF_FFF8

  /** Clamping of RFC 7748: bits 0, 1, 2 and 255 cleared, bit 254 set, the
      other bits of the seed kept. */
  predicate IsClampingOf(key: bv256, seed: bv256) {
    key & 7 == 0 && key & Bit255 == 0 && key & Bit254 == Bit254 && key & KeptBits == seed & KeptBits
  }

  /** The bit operations applied to the Curve25519 key, in the source's order. */
  function Clamp(seed: bv256): bv256 {
    ((seed & !7) & !(128 << 248)) | (64 << 248)
  }

  /** The clamped key has the RFC 7748 shape and lies in [2^254, 2^255). */
  lemma ClampMeaning(seed: bv256)
    ensures IsClampingOf(Clamp(seed), seed)
    ensures Bit254 <= Clamp(seed) < Bit255
  {
    ClampFixedBits(seed);
    ClampKeepsMiddle(seed);
  }

  lemma ClampFixedBits(seed: bv256)
    ensures Clamp(seed) & 7 == 0 && Clamp(seed) & Bit255 == 0 && Clamp(seed) & Bit254 == Bit254
    ensures Bit254 <= Clamp(seed) < Bit255
  {
  }

  lemma ClampKeepsMiddle(seed: bv256)
    ensures Clamp(seed) & KeptBits == seed & KeptBits
  {
  }

  lemma ClampIdempotent(seed: bv256)
    ensures Clamp(Clamp(seed)) == Clamp(seed)
  {
  }

  /** The three in-place updates of `generate_private_key`: clear the low
      three bits, clear bit 255, set bit 254. */
  method ClampInPlace(seed: bv256) returns (k: bv256)
    ensures k == Clamp(seed)
  {
    k := seed;
    k := k & !7;
    k := k & !(128 << 248);
    k := k | (64 << 248);
  }
}
