/** The mixing functions of `gel-core`: wrapping multiplication, xor-shift, `splitmix64` and
    `avalanche64`. */
module Mixing {
  import opened Words

  const GOLDEN_GAMMA: Word := 0x9E37_79B9_7F4A_7C15

  /** `wrapping_mul`. */
  function WrapMul(a: Word, b: Word): Word {
    a * b % TWO64
  }

  lemma WrapAdd(a: nat, b: nat)
    ensures (a % TWO64 + b) % TWO64 == (a + b) % TWO64
  {
  }

  function XorShift(x: Word, k: nat): Word {
    ShrShrinks(x, k);
    WordBounds(x, Shr(x, k));
    Xor(x, Shr(x, k))
  }

  function Avalanche64(x: Word): Word {
    XorShift(WrapMul(XorShift(WrapMul(XorShift(x, 33), 0xff51_afd7_ed55_8ccd), 33), 0xc4ce_b9fe_1a85_ec53), 33)
  }

  /** The output of the generator whose state has just become `x`. */
  function Mixed(x: Word): Word {
    XorShift(WrapMul(XorShift(WrapMul(XorShift(x, 30), 0xBF58_476D_1CE4_E5B9), 27), 0x94D0_49BB_1331_11EB), 31)
  }

  function NextState(x: Word): Word {
    (x + GOLDEN_GAMMA) % TWO64
  }

  /** `splitmix64`: one step of the generator started at `seed`. */
  function SplitMix64(seed: Word): Word {
    Mixed(NextState(seed))
  }
}
