/** Published check values: the CRC of the nine bytes "123456789", and the v1 digest, built from the FNV-1a hash
    and a finalizer, and the generator on their shortest inputs. */
module CheckValue {
  import opened Words
  import opened Crc
  import opened BitVectors
  import opened Counting
  import opened Mixing
  import opened Store

  /** The digits 1 to 9. */
  const DIGITS: seq<Byte> := [0x31, 0x32, 0x33, 0x34, 0x35, 0x36, 0x37, 0x38, 0x39]

  lemma NextPrefix(bytes: seq<Byte>, k: nat)
    requires k < |bytes|
    ensures BeValue(bytes[..k + 1]) == 256 * BeValue(bytes[..k]) + bytes[k]
  {
    assert bytes[..k + 1][..k] == bytes[..k];
  }

  /** The first eight digits as one number. */
  lemma EightDigits()
    ensures BeValue(DIGITS[..8]) == 0x3132_3334_3536_3738
  {
    assert DIGITS[..0] == [];
    NextPrefix(DIGITS, 0);
    NextPrefix(DIGITS, 1);
    NextPrefix(DIGITS, 2);
    NextPrefix(DIGITS, 3);
    NextPrefix(DIGITS, 4);
    NextPrefix(DIGITS, 5);
    NextPrefix(DIGITS, 6);
    NextPrefix(DIGITS, 7);
  }

  /** The remainders of both parts of the message, shifted by 64. */
  lemma PartsShifted()
    ensures Times64(Times8(0x3132_3334_3536_3738)) ^ Times64(0x39) == 0x6C40_DF5F_0B49_7347
  {
  }

  lemma ShiftedParts(value: bv64 -> nat, times8: bv64 -> bv64, times64: bv64 -> bv64, w: bv64, b: bv64)
    requires IsValue(value)
    requires TimesAt(value, 8, times8, w) && TimesAt(value, 64, times64, times8(w)) && TimesAt(value, 64, times64, b)
    ensures value(times64(times8(w)) ^ times64(b)) == Rem(ShiftUp(Xor(ShiftUp(value(w), 8), value(b)), 64))
  {
    ValueXor(value, times64(times8(w)), times64(b));
    RemShift(ShiftUp(value(w), 8), 64);
    ShiftUpXor(ShiftUp(value(w), 8), value(b), 64);
    RemXor(ShiftUp(ShiftUp(value(w), 8), 64), ShiftUp(value(b), 64));
  }

  lemma Parts(value: bv64 -> nat)
    requires IsValue(value)
    ensures Rem(ShiftUp(Xor(ShiftUp(0x3132_3334_3536_3738, 8), 0x39), 64)) == 0x6C40_DF5F_0B49_7347
  {
    ValueIs(value, 0x3132_3334_3536_3738, 0x3132_3334_3536_3738);
    ValueIs(value, 0x39, 0x39);
    ValueIs(value, 0x6C40_DF5F_0B49_7347, 0x6C40_DF5F_0B49_7347);
    MulLevel8(value);
    MulLevel64(value);
    ShiftedParts(value, Times8, Times64, 0x3132_3334_3536_3738, 0x39);
    PartsShifted();
  }

  lemma {:induction false} NineDigits(m: nat)
    requires m == BeValue(DIGITS[..8])
    ensures BeValue(DIGITS) == Xor(ShiftUp(m, 8), 0x39)
  {
    NextPrefix(DIGITS, 8);
    assert DIGITS[..9] == DIGITS;
    AppendByte(m, 0x39);
  }

  /** The checksum of the digits is 0x6C40DF5F0B497347. */
  lemma CanonicalCheckValue()
    ensures CrcOf(DIGITS) == 0x6C40_DF5F_0B49_7347
  {
    EightDigits();
    NineDigits(0x3132_3334_3536_3738);
    ValueIsValue();
    Parts(Value);
  }

  // ---- the v1 digest and the generator ----

  lemma {:induction false} XorIs(value: bv64 -> nat, a: bv64, b: bv64, c: bv64, x: nat, y: nat, z: nat)
    requires IsValue(value) && Num64(a) == x && Num64(b) == y && Num64(c) == z && a ^ b == c
    ensures Xor(x, y) == z
  {
    ValueIs(value, a, x);
    ValueIs(value, b, y);
    ValueIs(value, c, z);
    ValueXor(value, a, b);
  }

  lemma QuotientIsUnique(p: nat, q: nat, r: nat, s: nat, t: nat)
    requires q * p + r == p * s + t && r < p && t < p
    ensures q == s
  {
    assert q * p == p * q;
    assert p * (q + 1) == p * q + p && p * (s + 1) == p * s + p;
    if q < s {
      ProductMono(q + 1, s, p);
    } else if s < q {
      ProductMono(s + 1, q, p);
    }
  }

  lemma {:induction false} ShrIs(x: nat, k: nat, p: nat, y: nat, rest: nat)
    requires Pow2(k) == p && x == p * y + rest && rest < p
    ensures Shr(x, k) == y
  {
    hide *;
    SplitAt(x, k);
    QuotientIsUnique(p, Shr(x, k), Low(x, k), y, rest);
  }

  lemma Powers()
    ensures Pow2(27) == 0x800_0000 && Pow2(30) == 0x4000_0000
    ensures Pow2(31) == 0x8000_0000 && Pow2(33) == 0x2_0000_0000
  {
    assert Pow2(3) == 8 && Pow2(1) == 2;
    assert Pow2(9) == 512;
    Pow2Sum(9, 9);
    Pow2Sum(18, 9);
    Pow2Sum(27, 3);
    Pow2Sum(30, 1);
    Pow2Sum(30, 3);
  }

  /** `x ^ (x >> k)` on concrete words: `a`, `b` and `c` are `x`, the shifted `x` and the result. */
  lemma {:induction false} XorShiftIs(value: bv64 -> nat, a: bv64, b: bv64, c: bv64, x: Word, y: nat, z: Word, k: nat,
                                      p: nat, rest: nat)
    requires IsValue(value) && Num64(a) == x && Num64(b) == y && Num64(c) == z && a ^ b == c
    requires Pow2(k) == p && x == p * y + rest && rest < p
    ensures XorShift(x, k) == z
  {
    ShrIs(x, k, p, y, rest);
    XorIs(value, a, b, c, x, y, z);
  }

  lemma LetterProducts()
    ensures WrapMul(0xCBF2_9CE4_8422_2344, 0x100_0000_01B3) == 0xAF63_DC4C_8601_EC8C
    ensures WrapMul(0xAF63_DC4C_D1B0_02AB, 0xFF51_AFD7_ED55_8CCD) == 0xECD3_20B6_5D2E_A6EF
    ensures WrapMul(0xECD3_20B6_2B47_36B4, 0xC4CE_B9FE_1A85_EC53) == 0x25AD_9D1B_6208_AC5C
  {
  }

  lemma LetterXor(value: bv64 -> nat)
    requires IsValue(value)
    ensures Xor(0xCBF2_9CE4_8422_2325, 0x61) == 0xCBF2_9CE4_8422_2344
  {
    XorIs(value, 0xCBF2_9CE4_8422_2325, 0x61, 0xCBF2_9CE4_8422_2344,
          0xCBF2_9CE4_8422_2325, 0x61, 0xCBF2_9CE4_8422_2344);
  }

  lemma {:induction false} HashIs(byte: Byte, x: Word, hash: Word)
    requires Xor(FNV_START, byte) == x && WrapMul(x, 0x100_0000_01B3) == hash
    ensures Fnv(FNV_START, [byte]) == hash
  {
    hide Xor, WrapMul;
    assert [byte][..0] == [];
    assert Fnv(FNV_START, []) == FNV_START;
  }

  /** FNV-1a of the letter a. */
  lemma LetterHash(value: bv64 -> nat)
    requires IsValue(value)
    ensures Fnv(FNV_START, [0x61]) == 0xAF63_DC4C_8601_EC8C
  {
    hide Xor, WrapMul, Fnv;
    LetterXor(value);
    LetterProducts();
    HashIs(0x61, 0xCBF2_9CE4_8422_2344, 0xAF63_DC4C_8601_EC8C);
  }

  /** The length is mixed in. */
  lemma LetterLength(value: bv64 -> nat)
    requires IsValue(value)
    ensures Xor(0xAF63_DC4C_8601_EC8C, 1) == 0xAF63_DC4C_8601_EC8D
  {
    XorIs(value, 0xAF63_DC4C_8601_EC8C, 1, 0xAF63_DC4C_8601_EC8D, 0xAF63_DC4C_8601_EC8C, 1, 0xAF63_DC4C_8601_EC8D);
  }

  lemma Finalize1(value: bv64 -> nat)
    requires IsValue(value)
    ensures XorShift(0xAF63_DC4C_8601_EC8D, 33) == 0xAF63_DC4C_D1B0_02AB
  {
    Powers();
    XorShiftIs(value, 0xAF63_DC4C_8601_EC8D, 0x57B1_EE26, 0xAF63_DC4C_D1B0_02AB,
               0xAF63_DC4C_8601_EC8D, 0x57B1_EE26, 0xAF63_DC4C_D1B0_02AB, 33, 0x2_0000_0000, 0x8601_EC8D);
  }

  lemma Finalize2(value: bv64 -> nat)
    requires IsValue(value)
    ensures XorShift(0xECD3_20B6_5D2E_A6EF, 33) == 0xECD3_20B6_2B47_36B4
  {
    Powers();
    XorShiftIs(value, 0xECD3_20B6_5D2E_A6EF, 0x7669_905B, 0xECD3_20B6_2B47_36B4,
               0xECD3_20B6_5D2E_A6EF, 0x7669_905B, 0xECD3_20B6_2B47_36B4, 33, 0x2_0000_0000, 0x5D2E_A6EF);
  }

  lemma Finalize3(value: bv64 -> nat)
    requires IsValue(value)
    ensures XorShift(0x25AD_9D1B_6208_AC5C, 33) == 0x25AD_9D1B_70DE_62D1
  {
    Powers();
    XorShiftIs(value, 0x25AD_9D1B_6208_AC5C, 0x12D6_CE8D, 0x25AD_9D1B_70DE_62D1,
               0x25AD_9D1B_6208_AC5C, 0x12D6_CE8D, 0x25AD_9D1B_70DE_62D1, 33, 0x2_0000_0000, 0x1_6208_AC5C);
  }

  lemma AvalancheIs(x: Word, a: Word, b: Word, c: Word, d: Word, e: Word)
    requires XorShift(x, 33) == a && WrapMul(a, 0xFF51_AFD7_ED55_8CCD) == b
    requires XorShift(b, 33) == c && WrapMul(c, 0xC4CE_B9FE_1A85_EC53) == d
    requires XorShift(d, 33) == e
    ensures Avalanche64(x) == e
  {
    hide XorShift, WrapMul;
  }

  lemma {:induction false} ChecksumIs(byte: Byte, hash: Word, x: Word, e: Word)
    requires Fnv(FNV_START, [byte]) == hash && Xor(hash, 1) == x && Avalanche64(x) == e
    ensures Checksum([byte]) == e
  {
    hide Fnv, Xor, Avalanche64;
  }

  /** The v1 digest of the letter a. */
  lemma LegacyCheckValue()
    ensures Checksum([0x61]) == 0x25AD_9D1B_70DE_62D1
  {
    ValueIsValue();
    hide *;
    var value := Value;
    LetterHash(value);
    LetterLength(value);
    Finalize1(value);
    Finalize2(value);
    Finalize3(value);
    LetterProducts();
    AvalancheIs(0xAF63_DC4C_8601_EC8D, 0xAF63_DC4C_D1B0_02AB, 0xECD3_20B6_5D2E_A6EF, 0xECD3_20B6_2B47_36B4,
                0x25AD_9D1B_6208_AC5C, 0x25AD_9D1B_70DE_62D1);
    ChecksumIs(0x61, 0xAF63_DC4C_8601_EC8C, 0xAF63_DC4C_8601_EC8D, 0x25AD_9D1B_70DE_62D1);
  }

  lemma Mix1(value: bv64 -> nat)
    requires IsValue(value)
    ensures XorShift(0x9E37_79B9_7F4A_7C15, 30) == 0x9E37_79BB_0797_9AF0
  {
    Powers();
    XorShiftIs(value, 0x9E37_79B9_7F4A_7C15, 0x2_78DD_E6E5, 0x9E37_79BB_0797_9AF0,
               0x9E37_79B9_7F4A_7C15, 0x2_78DD_E6E5, 0x9E37_79BB_0797_9AF0, 30, 0x4000_0000, 0x3F4A_7C15);
  }

  lemma Mix2(value: bv64 -> nat)
    requires IsValue(value)
    ensures XorShift(0x6F68_261B_57E7_A770, 27) == 0x6F68_2616_BAE3_641A
  {
    Powers();
    XorShiftIs(value, 0x6F68_261B_57E7_A770, 0xD_ED04_C36A, 0x6F68_2616_BAE3_641A,
               0x6F68_261B_57E7_A770, 0xD_ED04_C36A, 0x6F68_2616_BAE3_641A, 27, 0x800_0000, 0x7E7_A770);
  }

  lemma Mix3(value: bv64 -> nat)
    requires IsValue(value)
    ensures XorShift(0xE220_A838_BF5C_9DDE, 31) == 0xE220_A839_7B1D_CDAF
  {
    Powers();
    XorShiftIs(value, 0xE220_A838_BF5C_9DDE, 0x1_C441_5071, 0xE220_A839_7B1D_CDAF,
               0xE220_A838_BF5C_9DDE, 0x1_C441_5071, 0xE220_A839_7B1D_CDAF, 31, 0x8000_0000, 0x3F5C_9DDE);
  }

  lemma DrawProducts()
    ensures WrapMul(0x9E37_79BB_0797_9AF0, 0xBF58_476D_1CE4_E5B9) == 0x6F68_261B_57E7_A770
    ensures WrapMul(0x6F68_2616_BAE3_641A, 0x94D0_49BB_1331_11EB) == 0xE220_A838_BF5C_9DDE
  {
  }

  lemma MixedIs(x: Word, a: Word, b: Word, c: Word, d: Word, e: Word)
    requires XorShift(x, 30) == a && WrapMul(a, 0xBF58_476D_1CE4_E5B9) == b
    requires XorShift(b, 27) == c && WrapMul(c, 0x94D0_49BB_1331_11EB) == d
    requires XorShift(d, 31) == e
    ensures Mixed(x) == e
  {
    hide XorShift, WrapMul;
  }

  lemma DrawIs(seed: Word, e: Word)
    requires seed == 0 && Mixed(0x9E37_79B9_7F4A_7C15) == e
    ensures SplitMix64(seed) == e
  {
    hide Mixed;
  }

  /** The first draw from the seed 0. */
  lemma FirstDraw()
    ensures SplitMix64(0) == 0xE220_A839_7B1D_CDAF
  {
    ValueIsValue();
    hide *;
    var value := Value;
    Mix1(value);
    Mix2(value);
    Mix3(value);
    DrawProducts();
    MixedIs(0x9E37_79B9_7F4A_7C15, 0x9E37_79BB_0797_9AF0, 0x6F68_261B_57E7_A770, 0x6F68_2616_BAE3_641A,
            0xE220_A838_BF5C_9DDE, 0xE220_A839_7B1D_CDAF);
    DrawIs(0, 0xE220_A839_7B1D_CDAF);
  }
}
